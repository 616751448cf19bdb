# Code-plagiarism checker and book services: a Dafny model

This project models the deterministic core of a small code-plagiarism and
book-analysis system and proves properties about it. The modelled parts are:

- **The offline similarity pipeline** (`ai_code_plagarism_checker.py`):
  - collect the source files with a supported extension from a directory walk;
  - strip comments and blank lines;
  - normalise function and variable names;
  - given a similarity matrix, flag the pairs of distinct files whose score is
    strictly above 0.95, and report them as a table sorted by decreasing
    similarity, or report that nothing was flagged.
- **The AI-authorship checker service**
  (`bookanalyzer/books/services/ai_code_plagiarism_checker.py`):
  - refuse short code;
  - unwrap the model's fenced reply;
  - clamp and normalise the two probabilities;
  - compute the code statistics;
  - number a batch of analyses and summarise it;
  - keep the kind and the probabilities of each error record, and the
    exceptions that escape the service.
- **The PDF question-answering chunker** (`pdf_qa_service.py`): split text
  into chunks of at most `chunk_size` words, and build the question context
  from the first five chunks.
- **The enhanced book finder** (`enhanced_book_finder.py`):
  - clean the search terms;
  - build each source's query;
  - pick the first PDF link on the Gutenberg search page fetched for the query;
  - try the four sources in order and return the first truthy answer.
- **The checker web page** (`src/PlagiarismChecker.js`):
  - the colour band of a percentage;
  - the add, remove and edit operations on the snippet list;
  - what gets posted to the service.

The project has one module per concern:

| module | file | contents |
|---|---|---|
| `Text` | `text.dfy` | Python and JavaScript string primitives: `strip`/`trim`, `in`, `split`, `split('\n')`, `'\n'.join`, `replace`, ASCII `lower` |
| `Collector` | `collector.dfy` | `collect_code_files` over a directory walk given as data |
| `Comments` | `comments.dfy` | `remove_comments_and_empty_lines` |
| `Patterns` | `patterns.dfy` | the regular expressions the system uses: a sequence of segments, matched greedily at each position and rewritten left to right as `re.sub` does |
| `Names` | `names.dfy` | `normalize_names` |
| `Preprocess` | `preprocess.dfy` | `os.path.splitext`, `os.path.basename`, `preprocess_file` |
| `Report` | `report.dfy` | flagging pairs above the threshold, and the sorted report |
| `AiChecker` | `ai_checker.dfy` | the checker service |
| `Chunks` | `pdf_chunks.dfy` | `create_chunks` and the question context |
| `BookFinder` | `book_finder.dfy` | the enhanced book finder |
| `CheckerPage` | `checker_page.dfy` | the page's state logic |

Inputs the program obtains from the outside world are parameters of the model:

- the directory walk;
- file contents;
- the similarity matrix;
- whether the generative model is configured, and its reply text;
- the JSON parser's verdict on the cleaned reply;
- the links of the Gutenberg search page fetched for each query;
- the answers of the Archive, OpenLibrary and Google searches.

## Model

| member | source | states |
|---|---|---|
| Text.Trim | src/PlagiarismChecker.js:30 | `trim` yields the slice of the text left after only whitespace is cut from both ends. The slice has no whitespace at either end, and it is empty exactly when the text is all whitespace. |
| Text.TrimUnique | src/PlagiarismChecker.js:30 | Any slice obtained by cutting only whitespace from both ends that has no whitespace at either end is the trimmed text, so the trimmed text is fully determined. |
| Text.Strip | bookanalyzer/books/services/ai_code_plagiarism_checker.py:27 | `code.strip()` is the slice of the code left after only Python whitespace is cut from both ends. The slice has no whitespace at either end, and it is empty exactly when the code is all whitespace. |
| Text.Find | bookanalyzer/books/services/ai_code_plagiarism_checker.py:67-70 | The position returned holds an occurrence, no earlier position holds one, and nothing is returned exactly when the pattern does not occur. |
| Text.BeforeSpec | bookanalyzer/books/services/ai_code_plagiarism_checker.py:68 | `s.split(pat)[0]` is a prefix of `s` that holds no occurrence of `pat` and ends where the first occurrence starts. It is all of `s` when `pat` does not occur. |
| Text.LinesShape | bookanalyzer/books/services/ai_code_plagiarism_checker.py:117 | `split('\n')` gives one more piece than there are line feeds, and no piece contains a line feed. |
| Text.LinesOfJoin | ai_code_plagarism_checker.py:37 | Splitting a `'\n'.join` of line-feed-free pieces gives the pieces back. |
| Text.JoinOfLines | ai_code_plagarism_checker.py:37 | Joining the pieces of a split with line feeds gives the text back. |
| Text.Words | bookanalyzer/books/services/pdf_qa_service.py:28 | Every piece of `split()` is non-empty and contains no whitespace. |
| Text.WordsCons | bookanalyzer/books/services/pdf_qa_service.py:28 | A word followed by whitespace or by nothing is the first piece of `split()`, and the rest of the text gives the other pieces. |
| Text.WordsSpaceCons | bookanalyzer/books/services/pdf_qa_service.py:28 | A leading whitespace character of any kind is skipped. With `WordsCons` this fixes `split()` as the whitespace-separated runs of the text. |
| Text.WordsOfJoin | bookanalyzer/books/services/pdf_qa_service.py:28-31 | `split()` of a single-space join of words gives back exactly those words. |
| Text.FilterChars | bookanalyzer/books/services/enhanced_book_finder.py:43 | Every kept character passes the filter and comes from the text, and every character of the text that passes the filter is kept. The result is never longer than the text. |
| Text.FilterAppend | bookanalyzer/books/services/enhanced_book_finder.py:43 | Filtering a concatenation filters each part and concatenates the results, so characters are kept in order. |
| Text.FilterOne | bookanalyzer/books/services/enhanced_book_finder.py:43 | A single character is kept exactly when it passes the filter. |
| Text.FilterKeepsAll | bookanalyzer/books/services/enhanced_book_finder.py:43 | A text whose every character passes the filter is kept unchanged. |
| Text.ReplaceChar | bookanalyzer/books/services/enhanced_book_finder.py:51 | After replacing a character by a text that does not contain it, the character no longer occurs. No other character appears that was in neither the text nor the replacement. |
| Text.ReplaceAppend | bookanalyzer/books/services/enhanced_book_finder.py:51 | Replacing in a concatenation replaces in each part independently. |
| Text.ReplaceOne | bookanalyzer/books/services/enhanced_book_finder.py:51 | A single character becomes the replacement when it is the replaced character, and stays otherwise. |
| Text.ReplaceCharLength | bookanalyzer/books/services/enhanced_book_finder.py:79 | Each occurrence grows the text by the replacement's length minus one. |
| Text.ReplaceCharPointwise | bookanalyzer/books/services/enhanced_book_finder.py:51 | Replacing a character by a single character keeps the length and changes exactly the positions that held the replaced character. |
| Text.CountChar | bookanalyzer/books/services/ai_code_plagiarism_checker.py:120 | The count is at most the length of the text, and it is zero exactly when the character is absent. |
| Collector.SupportedNames | ai_code_plagarism_checker.py:10-11 | The kept names all end in one of the four supported extensions, and there are no more of them than there were names. |
| Collector.SupportedNamesExact | ai_code_plagarism_checker.py:10-11 | A name is kept exactly when it was listed and is supported, and it is kept as many times as it was listed. |
| Collector.JoinPath | ai_code_plagarism_checker.py:12 | The joined path ends with the file name. For a relative name it starts with the directory, adds at most one separator, and any added character is `/`. |
| Collector.JoinPathSupported | ai_code_plagarism_checker.py:11-12 | Joining a supported name onto any directory gives a supported path. |
| Collector.CollectedAreSupported | ai_code_plagarism_checker.py:7-13 | Every collected path has a supported extension. |
| Collector.CollectAppend | ai_code_plagarism_checker.py:9-12 | Collecting over two parts of a walk is collecting over each part, in walk order. |
| Collector.CollectOneStep | ai_code_plagarism_checker.py:10-12 | One directory contributes its supported file names, joined onto its root, in listing order. |
| Collector.SupportedFilesAreCollected | ai_code_plagarism_checker.py:9-12 | Every supported file the walk lists is collected. |
| Collector.CollectedComeFromWalk | ai_code_plagarism_checker.py:9-12 | Every collected path is a supported file that the walk lists, joined onto its directory. |
| Comments.StripRemovesMarker | ai_code_plagarism_checker.py:32 | After `#.*` (or `//.*`) is removed, the marker no longer occurs. |
| Comments.StripWithoutMarker | ai_code_plagarism_checker.py:32 | Text without the marker is unchanged. |
| Comments.StripKeepsLineFeeds | ai_code_plagarism_checker.py:32-34 | Removing line comments keeps every line feed, because `.` does not match a line feed. |
| Comments.StripToLineEndPerLine | ai_code_plagarism_checker.py:32-34 | Removing `marker.*` is the same as cutting every line at its first marker. This is the per-line reference definition. |
| Comments.StripHashComments | ai_code_plagarism_checker.py:32 | The result contains no `#`, and it has exactly as many line feeds as the input. |
| Comments.StripLineComments | ai_code_plagarism_checker.py:34 | The result contains no `//`, and it has exactly as many line feeds as the input. |
| Comments.BlockCommentRemoved | ai_code_plagarism_checker.py:35 | A block comment that runs to its first `*/` is deleted, with the text before it kept. The match is non-greedy and spans lines. |
| Comments.BlockUnclosedKept | ai_code_plagarism_checker.py:35 | Without a `*/` there is no match, and the text is unchanged. |
| Comments.BlockWithoutOpener | ai_code_plagarism_checker.py:35 | Without a `/*` the text is unchanged. |
| Comments.NonBlankExact | ai_code_plagarism_checker.py:37 | A line is kept exactly when it occurs and its `strip()` is non-empty. |
| Comments.NonBlankAppend | ai_code_plagarism_checker.py:37 | The filter works piece by piece, so the kept lines stay in order and keep their repetitions. |
| Comments.UnifyBreaks | ai_code_plagarism_checker.py:37 | Every line boundary `splitlines` recognises becomes a line feed, and all other characters stay in place. |
| Comments.LinesOfRemoveEmptyLines | ai_code_plagarism_checker.py:37 | The lines of the result are exactly the non-blank lines of the input, in order. Input with no non-blank line gives the empty text. |
| Comments.NoBlankLineLeft | ai_code_plagarism_checker.py:37 | No line of the result is blank. |
| Comments.RemoveEmptyLinesChars | ai_code_plagarism_checker.py:37 | Every character of the result is a line feed or a non-break character of the input. |
| Comments.RemoveEmptyLinesIdempotent | ai_code_plagarism_checker.py:37 | Removing empty lines a second time changes nothing. |
| Comments.PythonHasNoHash | ai_code_plagarism_checker.py:31-37 | Cleaned Python code contains no `#`. |
| Comments.CleanedHasNoBlankLine | ai_code_plagarism_checker.py:29-38 | Cleaned code of any extension contains no blank line. |
| Comments.PythonCleanIdempotent | ai_code_plagarism_checker.py:29-38 | Cleaning Python code twice gives the same result as cleaning it once. |
| Comments.LineMarkerInsideBlockComment | ai_code_plagarism_checker.py:33-35 | A `//` that comes after a `/*` on the same line is removed first. This cuts the line and leaves the `/*` unclosed. |
| Comments.SingleLineKept | ai_code_plagarism_checker.py:37 | A non-blank line without line breaks survives unchanged. |
| Patterns.RunLengthSpec | ai_code_plagarism_checker.py:19 | A greedy character-class run covers only members of the class, and it stops at the first non-member. |
| Patterns.MatchLocal | ai_code_plagarism_checker.py:19-26 | A match does not look past a character the pattern cannot consume, so it is decided by the text before that character. |
| Patterns.RewriteKeepsOut | ai_code_plagarism_checker.py:19-26 | `re.sub` introduces no character that is in neither the text nor the replacement. |
| Patterns.RewriteMatch | ai_code_plagarism_checker.py:19-26 | At a matching position, `re.sub` emits the replacement and resumes after the match. |
| Patterns.RewriteCopy | ai_code_plagarism_checker.py:19-26 | At a non-matching position, `re.sub` copies one character. |
| Patterns.RewriteAppend | ai_code_plagarism_checker.py:19-26 | Text that ends in a character the pattern cannot consume is rewritten independently of what follows. |
| Patterns.RewriteAppendSettled | ai_code_plagarism_checker.py:19-26 | Text in which no match changes when more text is appended is rewritten independently of what follows. |
| Patterns.RewriteNoMatch | ai_code_plagarism_checker.py:19-26 | Text without any match is unchanged. |
| Names.NormalizeNames | ai_code_plagarism_checker.py:22-27 | Extensions other than `.py` and the C family leave the code unchanged. |
| Names.DefMatch | ai_code_plagarism_checker.py:19 | `def` followed by whitespace and an identifier matches exactly up to the end of the identifier. |
| Names.DefRenamed | ai_code_plagarism_checker.py:19 | A `def name` that starts the text, or follows a non-identifier character outside an unfinished `def`, becomes `def func`. The text before and after it is rewritten independently. |
| Names.DefNameIrrelevant | ai_code_plagarism_checker.py:17-21 | Two Python files that differ only in the name of a function defined at such a boundary normalise to the same text. |
| Names.KeywordMatch | ai_code_plagarism_checker.py:24 | Each of the eight keywords is the alternative that the regex picks at its own position. |
| Names.DeclMatch | ai_code_plagarism_checker.py:24 | A keyword followed by whitespace and an identifier matches up to the end of the identifier. |
| Names.DeclReplace | ai_code_plagarism_checker.py:24 | The `\1 func` replacement keeps the matched keyword and follows it with ` func`. |
| Names.DeclRenamed | ai_code_plagarism_checker.py:24 | A `type name` that starts the text, or follows a non-identifier character outside an unfinished keyword, becomes `type func`. The text around it is rewritten independently. |
| Names.DeclNameIrrelevant | ai_code_plagarism_checker.py:22-26 | Two C-family files that differ only in the name of a variable declared at such a boundary normalise to the same text. |
| Names.AssignMatch | ai_code_plagarism_checker.py:21 | An identifier, optional whitespace and `=` match up to and including the `=`. |
| Names.AssignRenamed | ai_code_plagarism_checker.py:21-26 | A `name =` that starts the text or follows a non-identifier character becomes `var =`. The text around it is rewritten independently. |
| Names.PythonNamesKeepOut | ai_code_plagarism_checker.py:17-21 | Normalising Python adds no character that is in neither the code nor the two replacements. |
| Preprocess.LastIndex | ai_code_plagarism_checker.py:41 | `rfind` returns the last occurrence of the character, or -1 when it is absent. |
| Preprocess.BasenameSpec | ai_code_plagarism_checker.py:100-101 | `basename` contains no `/` and is a suffix of the path. |
| Preprocess.BasenameOfJoin | ai_code_plagarism_checker.py:100-101 | The base name of a collected path is the file's own name. |
| Preprocess.SplitExt | ai_code_plagarism_checker.py:41 | `splitext` splits the path into root plus extension. The extension is empty, or it starts with its only dot and contains no `/`. |
| Preprocess.ExtensionOfLastComponent | ai_code_plagarism_checker.py:41 | The extension depends only on the last path component. |
| Preprocess.ExtensionAfterStem | ai_code_plagarism_checker.py:41 | A name with a non-dot stem and a dot-free suffix has that suffix as its extension. |
| Preprocess.HiddenNameHasNoExtension | ai_code_plagarism_checker.py:41 | Leading dots do not start an extension, so `.py` has none. |
| Preprocess.PythonFileExtension | ai_code_plagarism_checker.py:41 | `dir/stem.py` has extension `.py`. |
| Preprocess.PreprocessedPythonHasNoHash | ai_code_plagarism_checker.py:40-46 | A preprocessed Python file contains no `#`. |
| Preprocess.OtherFilesKeepNames | ai_code_plagarism_checker.py:40-46 | For other extensions, preprocessing applies only the `//` and block-comment removal and the empty-line filter. |
| Report.FlagPairs | ai_code_plagarism_checker.py:95-98 | The double loop produces exactly the reference list of flagged pairs. |
| Report.FlaggedExactly | ai_code_plagarism_checker.py:95-98 | A pair is flagged exactly when `i < j` and its score is strictly above the threshold. |
| Report.AllPairsInRange | ai_code_plagarism_checker.py:95-96 | On a square matrix, every flagged pair names two files of the list. |
| Report.PairsInOrder | ai_code_plagarism_checker.py:95-96 | Pairs are flagged in row-major order, and each at most once. |
| Report.ThresholdMonotone | ai_code_plagarism_checker.py:89-98 | Raising the threshold only removes pairs. |
| Report.SortSpec | ai_code_plagarism_checker.py:108 | Sorting is a permutation of the rows, and it orders them by decreasing similarity. |
| Report.BuildReport | ai_code_plagarism_checker.py:106-114 | "No pairs" is reported exactly when nothing is flagged. Otherwise the report is a permutation of the flagged rows in decreasing similarity. |
| Report.RowOfFlagged | ai_code_plagarism_checker.py:98-103 | Every pair above the threshold has its row of base names and score. |
| Report.FlaggedRowOrigin | ai_code_plagarism_checker.py:98-103 | Every row comes from a pair `i < j` that is above the threshold. |
| Report.TableExactly | ai_code_plagarism_checker.py:95-108 | A row is in the sorted table exactly when it comes from a pair of distinct files above the threshold. |
| AiChecker.Clamp | bookanalyzer/books/services/ai_code_plagiarism_checker.py:77-78 | `max(0, min(100, x))` lies in [0, 100]. It keeps values that are already in range and saturates the others. |
| AiChecker.Normalize | bookanalyzer/books/services/ai_code_plagiarism_checker.py:80-87 | The two values stay in [0, 100], sum to 100 and keep their ratio. Two zeros become 50/50. |
| AiChecker.NormalizeBalanced | bookanalyzer/books/services/ai_code_plagiarism_checker.py:80-84 | Probabilities that already sum to 100 are kept. |
| AiChecker.NormalizeIdempotent | bookanalyzer/books/services/ai_code_plagiarism_checker.py:80-87 | Normalising twice gives the same result as normalising once. |
| AiChecker.CleanReplyHasNoFence | bookanalyzer/books/services/ai_code_plagiarism_checker.py:64-70 | Whatever the reply, the text handed to the parser contains no code fence. |
| AiChecker.JsonFencedReply | bookanalyzer/books/services/ai_code_plagiarism_checker.py:67-68 | A reply fenced as JSON yields exactly its stripped body, when neither the text before the fence nor the body contains a backtick. |
| AiChecker.PlainFencedReply | bookanalyzer/books/services/ai_code_plagiarism_checker.py:69-70 | A reply in a bare fence yields exactly its stripped body, when neither the text before the fence nor the body contains a backtick. |
| AiChecker.UnfencedReply | bookanalyzer/books/services/ai_code_plagiarism_checker.py:66-70 | An unfenced reply reaches the parser unchanged. |
| AiChecker.StatsBounds | bookanalyzer/books/services/ai_code_plagiarism_checker.py:117-123 | Comment lines ≤ non-empty lines ≤ total lines. The line count is one more than the number of line feeds, and the character count is the code's length. |
| AiChecker.CountNonBlankAppend | bookanalyzer/books/services/ai_code_plagiarism_checker.py:121 | The non-empty line count of a concatenation of line lists is the sum of the counts. |
| AiChecker.CountCommentsAppend | bookanalyzer/books/services/ai_code_plagiarism_checker.py:122 | The comment line count of a concatenation of line lists is the sum of the counts. |
| AiChecker.CommentsAreNonBlank | bookanalyzer/books/services/ai_code_plagiarism_checker.py:121-122 | A comment line is never blank. |
| AiChecker.ClassesNeedTheWord | bookanalyzer/books/services/ai_code_plagiarism_checker.py:125 | Code is said to have classes only if it contains `class`. |
| AiChecker.ClassDetected | bookanalyzer/books/services/ai_code_plagiarism_checker.py:125 | `class` followed by whitespace and a word, anywhere in the code, makes `has_classes` true. |
| AiChecker.Interpret | bookanalyzer/books/services/ai_code_plagiarism_checker.py:74-113 | A parsed reply succeeds exactly when it is an object whose two probabilities are numbers or absent. A success has in-range probabilities that sum to 100 and always has a confidence. A failure carries 50/50 for unparsable JSON and 0/0 otherwise, and the reply is unparsable exactly when the record is the 50/50 "failed to parse" one. |
| AiChecker.Analyze | bookanalyzer/books/services/ai_code_plagiarism_checker.py:20-113 | Every successful analysis has probabilities in [0, 100] that sum to 100. |
| AiChecker.AnalysedExactly | bookanalyzer/books/services/ai_code_plagiarism_checker.py:22-99 | An analysis succeeds exactly when all of these hold: the model is ready; the stripped code has at least 10 characters; the model replies; the cleaned reply parses to an object with numeric-or-absent probabilities. |
| AiChecker.FailureProbabilities | bookanalyzer/books/services/ai_code_plagiarism_checker.py:27-113 | Error records carry 50/50 for an unparsable reply and 0/0 otherwise. |
| AiChecker.AnalyzeRaises | bookanalyzer/books/services/ai_code_plagiarism_checker.py:22-106 | An analysis raises exactly when there is no model, or when the model is asked and generation fails; the handler then names `json` before it is bound. |
| AiChecker.UnparsableExactly | bookanalyzer/books/services/ai_code_plagiarism_checker.py:63-106 | The 50/50 "failed to parse" record comes exactly from a ready model, long enough code, and a reply whose cleaned text is not JSON. |
| AiChecker.NoModelRaises | bookanalyzer/books/services/ai_code_plagiarism_checker.py:22-24 | Without a model, every call raises, because the handler names `json` before it is bound. |
| AiChecker.ShortCodeNeverAsks | bookanalyzer/books/services/ai_code_plagiarism_checker.py:27-32 | Short code gets the 0/0 "too short" record whatever the model would reply. |
| AiChecker.ConsistentReplyKept | bookanalyzer/books/services/ai_code_plagiarism_checker.py:74-91 | A reply whose two in-range probabilities already sum to 100 is reported with exactly those values. |
| AiChecker.SumsBalance | bookanalyzer/books/services/ai_code_plagiarism_checker.py:153-154 | Over well-formed analyses, the two probability sums add up to 100 per analysis. |
| AiChecker.LikelyDisjoint | bookanalyzer/books/services/ai_code_plagiarism_checker.py:163-164 | No analysis counts as both likely AI and likely human. |
| AiChecker.ValidExact | bookanalyzer/books/services/ai_code_plagiarism_checker.py:148 | An analysis is kept exactly when it is in the results without an error record, and it is kept as often as it occurs there. |
| AiChecker.ValidAppend | bookanalyzer/books/services/ai_code_plagiarism_checker.py:148 | The filter keeps the results' order: it distributes over concatenation. |
| AiChecker.ValidCount | bookanalyzer/books/services/ai_code_plagiarism_checker.py:148 | The kept analyses and the other results together make up the whole list. |
| AiChecker.SummaryShape | bookanalyzer/books/services/ai_code_plagiarism_checker.py:143-159 | The summary is `{}` exactly for no results and the error dict exactly when every result is an error record. It raises exactly when some kept confidence is not a number. Otherwise `total_snippets` is the number of results, `analyzed_snippets` the number of results without an error record. |
| AiChecker.SumsUniform | bookanalyzer/books/services/ai_code_plagiarism_checker.py:153-154 | Over analyses that all carry the same two probabilities, each sum is that probability times their number. |
| AiChecker.SummaryOfUniform | bookanalyzer/books/services/ai_code_plagiarism_checker.py:153-161 | The averages are means: when every analysis without an error record carries the same probabilities, the summary's averages are those probabilities. |
| AiChecker.SummaryBounds | bookanalyzer/books/services/ai_code_plagiarism_checker.py:143-165 | The summary's averages lie in [0, 100] and add up to 100. The analysed count is at most the total, and the two tallies together are at most the analysed count. |
| AiChecker.ServiceWellFormed | bookanalyzer/books/services/ai_code_plagiarism_checker.py:133-136 | Every successful analysis in a batch is well formed, so the summary bounds apply to every batch. |
| AiChecker.NumberAnalyses | bookanalyzer/books/services/ai_code_plagiarism_checker.py:133-136 | The loop raises exactly when some analysis raised. Otherwise result `k` is analysis `k` with id `k + 1`. |
| AiChecker.BatchAnalyze | bookanalyzer/books/services/ai_code_plagiarism_checker.py:129-141 | The batch raises exactly when an analysis raised or the confidences cannot be summed. Otherwise it returns every snippet's analysis, numbered from 1, together with their summary. |
| Chunks.CreateChunks | bookanalyzer/books/services/pdf_qa_service.py:26-33 | A step of 0 raises. A negative step gives no chunks. Otherwise the chunks are the space-joined consecutive groups of `chunk_size` words. |
| Chunks.GroupsConcat | bookanalyzer/books/services/pdf_qa_service.py:30-31 | The groups, concatenated, are the words. |
| Chunks.GroupSizes | bookanalyzer/books/services/pdf_qa_service.py:30-31 | Every group has between 1 and `chunk_size` words, and all but the last have exactly `chunk_size`. |
| Chunks.GroupCount | bookanalyzer/books/services/pdf_qa_service.py:30 | There are ⌈words / chunk_size⌉ groups. |
| Chunks.ChunksRoundTrip | bookanalyzer/books/services/pdf_qa_service.py:28-31 | Splitting the chunks into words again gives exactly the words of the text. |
| Chunks.ChunkShape | bookanalyzer/books/services/pdf_qa_service.py:26-33 | The chunk count is ⌈words / chunk_size⌉, and there are no chunks exactly when the text is all whitespace. Each chunk's word count is as for its group. |
| Chunks.ContextLines | bookanalyzer/books/services/pdf_qa_service.py:70 | The lines of the question context are exactly the first five chunks, or fewer when there are fewer. |
| BookFinder.CleanSearchTerm | bookanalyzer/books/services/enhanced_book_finder.py:39-43 | A missing, empty or "unknown" term becomes empty. Any other term becomes its stripped form with every quote deleted and the other characters kept in order. The result never contains a quote. |
| BookFinder.QuoteDeleted | bookanalyzer/books/services/enhanced_book_finder.py:43 | A quote inside the stripped term is deleted, and the parts before and after it are cleaned independently. |
| BookFinder.UnknownInAnyCase | bookanalyzer/books/services/enhanced_book_finder.py:41 | Every capitalisation of "unknown" is treated as unknown. |
| BookFinder.QuoteFreeTermIsStripped | bookanalyzer/books/services/enhanced_book_finder.py:43 | A term without quotes is only stripped. |
| BookFinder.GutenbergQuery | bookanalyzer/books/services/enhanced_book_finder.py:51 | The Gutenberg query contains no blank, and it is as long as the query text, because each blank becomes one `+`. |
| BookFinder.ArchiveQuery | bookanalyzer/books/services/enhanced_book_finder.py:79 | The Archive query contains no blank, and it is two characters longer per blank of the query text, because each blank becomes `%20`. |
| BookFinder.GutenbergQueryDecodes | bookanalyzer/books/services/enhanced_book_finder.py:51 | Turning `+` back into blanks recovers the query text, when that text contained no `+`. |
| BookFinder.PickHrefSpec | bookanalyzer/books/services/enhanced_book_finder.py:61-66 | No link is picked exactly when no link mentions both `.pdf` and `files`. Otherwise the first such link is picked. |
| BookFinder.AbsoluteKeepsPdf | bookanalyzer/books/services/enhanced_book_finder.py:64-66 | A site-relative link gets the Gutenberg host prepended, and other links are kept. Either way, the result is still a PDF link. |
| BookFinder.GutenbergAsksItsQuery | bookanalyzer/books/services/enhanced_book_finder.py:51-55 | Gutenberg's answer depends only on the page fetched for the `+` query. |
| BookFinder.PickedIsPdf | bookanalyzer/books/services/enhanced_book_finder.py:61-66 | The link picked from a page names a PDF file. |
| BookFinder.GutenbergGivesPdf | bookanalyzer/books/services/enhanced_book_finder.py:45-71 | Whatever Gutenberg returns is a PDF file link. |
| BookFinder.FirstHitSpec | bookanalyzer/books/services/enhanced_book_finder.py:26-37 | The search finds nothing exactly when no source gives a truthy answer. Otherwise it returns the first truthy answer. |
| BookFinder.SourceAnswers | bookanalyzer/books/services/enhanced_book_finder.py:19-24 | There are four sources, and none of them answers an empty title. |
| BookFinder.ArchiveComesSecond | bookanalyzer/books/services/enhanced_book_finder.py:19-31 | When Gutenberg finds nothing and the Archive, asked with the `%20` query, answers, the search returns the Archive's answer. |
| BookFinder.OpenLibraryComesThird | bookanalyzer/books/services/enhanced_book_finder.py:19-31 | When Gutenberg and the Archive give nothing and OpenLibrary, asked with the plain query, answers, the search returns OpenLibrary's answer. |
| BookFinder.UnknownTitleFindsNothing | bookanalyzer/books/services/enhanced_book_finder.py:39-49 | A title that cleans to nothing finds nothing, because every source refuses an empty title. |
| BookFinder.GutenbergComesFirst | bookanalyzer/books/services/enhanced_book_finder.py:19-31 | A Gutenberg hit is returned before any other source is consulted, and it is a PDF link. |
| BookFinder.GoogleIsTheLastResort | bookanalyzer/books/services/enhanced_book_finder.py:19-37 | When the first three sources give nothing, the answer is Google's if it is truthy, and nothing otherwise. |
| CheckerPage.ResultColor | src/PlagiarismChecker.js:59-63 | Red exactly above 70, orange exactly in (50, 70], green exactly at 50 or below. |
| CheckerPage.ColorMonotone | src/PlagiarismChecker.js:59-63 | A higher percentage never gets a calmer colour. |
| CheckerPage.RedMeansLikelyAi | src/PlagiarismChecker.js:60 | The red band is exactly what the service counts as likely AI. |
| CheckerPage.AddSnippet | src/PlagiarismChecker.js:45-47 | Adding keeps every snippet and appends one empty snippet. |
| CheckerPage.RemoveSnippetSpec | src/PlagiarismChecker.js:49-51 | Removing drops exactly the entry at the index and keeps the others in order. An index outside the list changes nothing. |
| CheckerPage.UpdateSnippet | src/PlagiarismChecker.js:53-57 | Only the edited position changes, and it takes the new text. |
| CheckerPage.UpdateLaws | src/PlagiarismChecker.js:53-57 | Writing back what is there changes nothing. Of two writes to the same position, the later one wins. |
| CheckerPage.NeverEmpty | src/PlagiarismChecker.js:166-177 | Whatever the user does, the list always holds at least one snippet, because remove buttons are shown only while there are two or more. |
| CheckerPage.ValidSpec | src/PlagiarismChecker.js:30 | The snippets sent are exactly the non-blank ones. |
| CheckerPage.ValidAppend | src/PlagiarismChecker.js:30 | The filter preserves the order of the snippets. |
| CheckerPage.NoBlankKeepsAll | src/PlagiarismChecker.js:30 | A list without blank snippets is sent as it is. |
| CheckerPage.BatchRequest | src/PlagiarismChecker.js:29-36 | No request is made exactly when every snippet is blank. Otherwise the non-blank snippets are posted, and there is at least one. |
| CheckerPage.CodeRequest | src/PlagiarismChecker.js:14-21 | No request is made exactly when the code is all whitespace. Otherwise the code is posted unchanged. |

## Left out

- **Left out because they are outside the deterministic core:**
  - The CodeBERT embedding and the cosine similarity are not modelled. Reason: both are numerical, floating-point computations. The similarity matrix is an input.
  - `round(score, 4)` and `round(x, 1)` are not modelled. Reason: they are floating-point rounding, so the model keeps the unrounded reals.
  - Reading files, `os.walk` itself, printing, and the pandas/CSV output are not modelled. Reason: they are I/O. The walk is given as a sequence of (root, file names) steps, and file contents are a parameter.
  - The Gemini call and `json.loads` are not modelled. Reason: they are foreign calls. The reply and the parser's verdict are inputs.
  - The text of the `error` field is not modelled. Reason: `'Analysis failed: ' + str(e)` depends on the message of an exception raised inside a foreign call. An error record keeps its kind (too short, unparsable reply, failed analysis) and its probabilities.
  - The `reasoning` and `indicators` fields are not modelled. Reason: the service passes them through unchanged.
  - The HTTP requests, the HTML parsing, the `HEAD` checks, `download_pdf`, PDF text extraction, `pickle` and the Gemini answer in `pdf_qa_service.py` are not modelled. Reason: they are I/O and foreign calls.
  - The internals of the Archive, OpenLibrary and Google searches are not modelled. Reason: they are HTTP and JSON handling. Their answers are inputs, and only their empty-title guards and their queries are modelled.
  - The exceptions caught in the finder's loop (lines 33-35) are not modelled separately. Reason: a failing source is modelled as giving no answer.
  - `time.sleep` is not modelled. Reason: it does not change the result.
  - Rendering, loading state and network errors of the page are not modelled. Reason: they are UI and I/O.
- **Left out as other files:**
  - `book_finder_service.py`, the OCR services, `views.py`, `models.py`, `urls.py`, `admin.py`, `bulk_upload.py` and `App.js` are not part of this model.
- **Simplifications of Python string and regex behaviour:**
  - Only the patterns the system uses are modelled, not general regular-expression semantics. Greedy runs followed by a disjoint class or word give the same match as backtracking. `\w` is read as ASCII `[A-Za-z0-9_]`.
  - `str.lower()` is modelled on ASCII only. Non-ASCII case mappings are not modelled, for example the Kelvin sign lowering to `k` in the "unknown" test.
  - Collector.JoinPath: paths follow POSIX `os.path.join`, with `/` as the only separator. Windows separators and drive letters are not modelled.
  - `splitlines()` treats `"\r\n"` as two breaks. Reason: the blank line this creates between them is removed by the empty-line filter anyway.
- **Deliberately weaker contracts and other simplifications:**
  - Report.SortSpec: does not fix the order of rows with equal similarity. Reason: pandas' default sort is not stable, so the pipeline does not fix it either.
  - Report.FlagPairs: scans row `i` up to `|m[i]|`, not up to the file count. Reason: the two are equal on the square matrix the pipeline builds.
  - Names.DefRenamed, Names.DeclRenamed, Names.AssignRenamed, Names.DefNameIrrelevant, Names.DeclNameIrrelevant: do not cover a name that follows an identifier character or an unfinished keyword such as `def ` or `int `. Reason: there the match can begin in the text before and reaches into the name, so the rewrite is not local.
  - Report.BuildReport: its second ensures fixes the order of rows with equal similarity to the order the model's insertion sort gives. Reason: the model has to pick one order. pandas' default `sort_values` does not promise any order for ties, so the first ensures states only what pandas promises, a permutation in decreasing similarity.
  - Report.BuildReport: rows carry base names only. Reason: that is what the table shows.
  - CheckerPage.UpdateSnippet: requires a rendered position. Reason: the text areas exist only for rendered positions, and writing past the end of a JavaScript array is not modelled.
  - AiChecker.Analyze: does not model a `None` snippet, only strings. An empty string follows the same "too short" path.
  - `json` being bound only at line 73 is modelled faithfully. Any exception raised before that line escapes `analyze_code` and the whole batch (`Raised`). This means the "Gemini model not initialized" record that the first `except` clause seems meant to produce is never returned.
