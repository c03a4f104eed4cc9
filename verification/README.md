# PaperGen core, modelled in Dafny

PaperGen writes medical knowledge-base articles from search results. This
project models the deterministic core of the pipeline:

- **text utilities** (`src/utils.py`): expand citation ranges such as `2,23-25`,
  pull numeric citations out of `[...]` markers, drop search results with
  duplicate content, parse a numbered reference line, repair model output
  that should be JSON, and turn a directory name into a file name;
- **the reference store** (`src/reference_manager.py`): a class that numbers
  reference texts in the order they first arrive, formats paper records as
  reference texts, rewrites the `[...]` markers of an article to those
  numbers, and renders the `References` section;
- **Semantic Scholar results** (`src/semanticscholar.py`): the screening of
  one batch of search hits by journal SJR and citation count, citation
  formatting, formatting of the result sections, and the choice of the
  most cited papers per query;
- **PubMed results** (`src/pubmed.py`): citation formatting and formatting of
  the result sections into records;
- **reference-file choice** (`main.py`): the first `top_n` result paths that
  are unique by file name and score;
- **output lookup** (`src/process_output.py`): file-name sanitising and the
  choice of the newest `_final_` JSON file of a directory listing;
- **the article schema** (`src/models.py`) as datatypes.

Python behaviour is written out: dictionary lookups with defaults are a
`Field` (`Absent | Null | Int | Str`), an f-string of `None` renders
`None`, slices clamp, `str.strip`/`split`/`join`/`int()` follow Python,
and an exception that escapes an operation becomes `None` (or `Crash` for
one entry of a batch). Each loop of the source is a method proved equal to
a specification function, and the properties are lemmas about those
functions.

Modules: `Wrappers` (Option), `PyStr` (Python string operations), `Markers`
(the bracket-marker scanner shared by citation extraction and
renumbering, and the `[digits]` prefix shared by `parse_reference` and
`_strip_numbering`), `Fields` (dictionary values), `Sections` (the
section-by-section walk of a results dictionary), then one module per
source file: `Models`, `Utils`, `References`, `SemanticScholar`, `PubMed`,
`MainFiles`, `ProcessOutput`.

## Model

| member | source | states |
|---|---|---|
| Models.NewSection | src/models.py:28-105 | a section is built exactly when its content has the shape its kind requires; the heading is the given one, or the kind's default heading |
| Models.DefaultHeadingsDistinct | src/models.py:28-105 | the sixteen default headings are pairwise distinct and each one names its own kind |
| Models.ReferencesHoldItems | src/models.py:103-117 | in a well-formed outline a References section holds reference items |
| Markers.ScanLossless | src/utils.py:225 | the lazy `[...]` scanner splits a text into plain characters and markers that render back to the text |
| Markers.FindAllInteriors | src/utils.py:225 | no marker interior found by the scanner holds `]` or a newline |
| Markers.ScanMarkerFirst | src/reference_manager.py:144-156 | a text that starts with a marker scans as that marker followed by the scan of the rest |
| Markers.NumberedPrefix | src/utils.py:258 | a `[digits]` prefix is found only when the text is `[`, a non-empty digit run, `]` and a rest |
| Markers.NumberedPrefixOf | src/reference_manager.py:61 | any `[digits]` prefix is recognised, with the digits and the rest it was built from |
| Utils.RangeStrings | src/utils.py:207 | the range `start..end` gives `end - start + 1` numerals (none when reversed), the i-th being `start + i` |
| Utils.ExpandCitationRanges | src/utils.py:196-218 | the loop over comma-separated parts returns the expansion of the citation text |
| Utils.ExpansionCons | src/utils.py:201 | parts expand independently: the first comma splits off the first part's expansion |
| Utils.RangePart | src/utils.py:202-210 | a part `x-y` with two integers expands to the range between them |
| Utils.TwoHyphensSkipped | src/utils.py:202-212 | a part with two hyphens is skipped: it expands to nothing |
| Utils.BadBoundSkipped | src/utils.py:202-210 | a part `x-y` where either bound is not an integer is skipped: it expands to nothing |
| Utils.PlainPart | src/utils.py:213-215 | a part without a hyphen gives itself, stripped |
| Utils.NumberThenRange | src/utils.py:196-218 | `n,a-b` expands to `n` followed by the numerals from `a` to `b` |
| Utils.ExtractCitations | src/utils.py:220-229 | the loop over markers returns the expansion of every marker that is a numeric citation list |
| Utils.ExtractedAreNumerals | src/utils.py:225-228 | every extracted citation is a non-empty run of digits |
| Utils.NoBracketNoCitations | src/utils.py:225 | a line without `[` yields no citations |
| Utils.AuthorYearIgnored | src/utils.py:227 | an author-year marker such as `[Smith 2020]` yields nothing |
| Utils.RemoveDuplicates | src/utils.py:232-243 | the loop returns the results with repeated content dropped |
| Utils.DedupContents | src/utils.py:236-242 | the kept results have distinct contents and cover every content of the input |
| Utils.DedupKeepsFirsts | src/utils.py:238-242 | each kept result is the first input result with its content |
| Utils.DedupKeepsOrder | src/utils.py:238-242 | kept results keep the order of their first occurrences |
| Utils.DedupOfDistinct | src/utils.py:232-243 | input with distinct contents is returned unchanged |
| Utils.DedupIdempotent | src/utils.py:232-243 | removing duplicates twice is removing them once |
| Utils.ParseReference | src/utils.py:258-267 | a reference parses exactly when it starts with `[digits]`; the citation is one line |
| Utils.ParseReferenceRoundTrip | src/utils.py:258-267 | parsing `[n] citation` gives back `n` and the citation |
| Utils.FenceBody | src/utils.py:103-112 | a code fence is removed exactly when the text opens with backticks and a `json` tag and closes with the same backticks |
| Utils.FenceBodyStripped | src/utils.py:104-111 | the group a fence keeps is a slice of the text with only whitespace between it and the `json` tag and between it and the closing backticks |
| Utils.StripPaddedSlice | src/utils.py:111 | whitespace on both sides of a slice does not change what it strips to, so the stripped group is the stripped text between the tag and the closing backticks |
| Utils.CloseOpen | src/utils.py:119-125 | after appending closers no `[` or `{` is left unmatched by count; only `]` and `}` are added |
| Utils.CloseOpenShape | src/utils.py:119-125 | the result is the input followed by closers only, all `]` before any `}`; the opener counts are unchanged and each closer count becomes the larger of its opener and closer counts |
| Utils.CleanJson | src/utils.py:86-131 | the method returns the cleaned text of the specification function |
| Utils.CleanedJsonNoSingleQuote | src/utils.py:116 | cleaned text holds no single quote |
| Utils.CleanedJsonClosed | src/utils.py:118-125 | cleaned text has at least as many `]` as `[` and `}` as `{` |
| Utils.CleanedJsonNoGlued | src/utils.py:129 | cleaned text has no `}` followed by whitespace and `{` |
| Utils.CleanedJsonUnchanged | src/utils.py:86-131 | text that is already clean comes back unchanged |
| Utils.InsertCommasCount | src/utils.py:129 | inserting commas keeps the count of every other non-space character |
| Utils.SanitizeFilename | src/utils.py:167-170 | the result is no longer than the input, has no space, and holds only word characters and other whitespace |
| Utils.SanitizeFilenameCounts | src/utils.py:167-170 | each word or whitespace character keeps its count, spaces counting as `_`; no space and no other character remains |
| Utils.SanitizeFilenameSpace | src/utils.py:169 | a space becomes `_` between the sanitised halves |
| Utils.SanitizeFilenameIdempotent | src/utils.py:167-170 | sanitising twice is sanitising once |
| References.StripNumbering | src/reference_manager.py:56-61 | the result is a suffix of the reference, the whole reference when it has no `[digits]` prefix |
| References.StripNumberingOf | src/reference_manager.py:61 | `[digits]`, whitespace and a rest strip to the rest |
| References.RegisterValid | src/reference_manager.py:24-34 | registering keeps the two maps inverse and dense; a new text gets the next number, a known one changes nothing |
| References.RegisterAllValid | src/reference_manager.py:18-34 | after adding references every stripped text is registered and earlier numbers are unchanged |
| References.RegisterAllAgain | src/reference_manager.py:18-34 | adding references that are all known changes nothing |
| References.RegisterAllCount | src/reference_manager.py:18-34 | the next number grows by the number of distinct new texts |
| References.NewTextsKnown | src/reference_manager.py:18-34 | the known texts afterwards are the earlier ones plus the new ones |
| References.PaperAuthors | src/reference_manager.py:67 | the author text exists exactly when authors is missing (giving `""`) or a list of string names, which it joins with `", "` |
| References.FormatPaperReference | src/reference_manager.py:63-75 | formatting fails exactly when authors is `None` or an author has no string name; it gives `authors (year). title. journal. url` with the `", "`-joined names, the defaults and `No DOI` for an empty DOI |
| References.PaperAuthorsReadBack | src/reference_manager.py:67-99 | reading the authors back from a formatted reference gives the stripped joined names when they contain no `(` |
| References.DoiUrl | src/reference_manager.py:71-72 | the URL is `No DOI` exactly when the DOI is falsy |
| References.RegisterFormattedOk | src/reference_manager.py:41-54 | adding papers finishes exactly when every paper formats |
| References.RegisterPapersValid | src/reference_manager.py:36-54 | adding papers keeps the store valid and, when it finishes, registers every paper's stripped reference |
| References.ExtractAuthorsShape | src/reference_manager.py:95-99 | the authors are stripped and hold no `(` |
| References.FirstYearFromSpec | src/reference_manager.py:105 | the search finds the first `(dddd)` at or after the start, and nothing only when there is none |
| References.ExtractYearShape | src/reference_manager.py:101-106 | the year is four digits or `No Year` |
| References.ExtractUrlSuffix | src/reference_manager.py:128-135 | the URL is a suffix of the reference |
| References.ExtractJournalIsTitle | src/reference_manager.py:118-126 | for a formatted paper reference the journal extractor returns the title, since the first `. ` follows the year |
| References.ItemOfFormatted | src/reference_manager.py:89-93 | reading an item back from a formatted reference gives its authors, year, title and URL, with the title as journal |
| References.ItemsUpToShape | src/reference_manager.py:88-93 | the items are numbered 1, 2, … in order, each read from its stored text |
| References.AssignIdsKnownMarker | src/reference_manager.py:146-154 | a marker naming a known reference becomes `[number]` |
| References.AssignIdsUnknownMarker | src/reference_manager.py:150-153 | a marker naming no known reference stays as it is |
| References.AssignIdsUnknown | src/reference_manager.py:143-156 | text whose markers name no known reference is unchanged |
| References.ReferenceManager.constructor | src/reference_manager.py:11-16 | a new store is valid and empty with next number 1 |
| References.ReferenceManager.Insert | src/reference_manager.py:26-30 | one registration step, keeping the store valid |
| References.ReferenceManager.AddReferences | src/reference_manager.py:18-34 | the new state is the registration of all the references |
| References.ReferenceManager.AddPapers | src/reference_manager.py:36-54 | the new state and completion flag are those of registering the formatted papers |
| References.ReferenceManager.GetReferenceNumber | src/reference_manager.py:77-82 | the number is -1 exactly when the stripped text is unknown, otherwise a number in use that maps back to the text |
| References.ReferenceManager.GetAllReferences | src/reference_manager.py:84-93 | the items of the stored references in ascending order |
| References.ReferenceManager.ReferencesSection | src/reference_manager.py:162-168 | the References text, one line per item |
| References.ReferenceManager.RenumberReferences | src/reference_manager.py:137-169 | `content` (empty when missing) gets its markers renumbered, `References` is set, no other key changes |
| SemanticScholar.AuthorName | src/semanticscholar.py:290 | an author name joins exactly when missing or a string; a missing name gives `Unknown` |
| SemanticScholar.AuthorNames | src/semanticscholar.py:289-291 | the names join exactly when each does, in order |
| SemanticScholar.AuthorsTextEtAl | src/semanticscholar.py:289-293 | more than three authors give the first three joined plus ` et al.` |
| SemanticScholar.AuthorsTextFew | src/semanticscholar.py:289-291 | up to three authors give all of them joined |
| SemanticScholar.AuthorsTextFails | src/semanticscholar.py:289-291 | the author text fails exactly when one of the first three names is `None` or not a string |
| SemanticScholar.AuthorsTextFirstThree | src/semanticscholar.py:289-293 | only the first three authors matter once there are more than three |
| SemanticScholar.FormatCitation | src/semanticscholar.py:279-318 | the citation exists exactly when the authors join and `externalIds` is not `None` |
| SemanticScholar.CitationPlain | src/semanticscholar.py:307 | with no DOI, URL, PDF or venue URL the citation is the base |
| SemanticScholar.CitationShape | src/semanticscholar.py:307-316 | the citation is the base, the DOI part, then the URL, PDF and venue-URL parts |
| SemanticScholar.CitationDoiFirst | src/semanticscholar.py:309-310 | a DOI is inserted right after the base |
| SemanticScholar.CitationVenueUrlLast | src/semanticscholar.py:315-316 | a venue URL is appended last |
| SemanticScholar.FormatPairsKept | src/semanticscholar.py:327-334 | formatting finishes exactly when every paper with an abstract formats; the output is those papers, tagged with section and citation, in order |
| SemanticScholar.FormatPairsStops | src/semanticscholar.py:333 | once a citation fails, formatting fails whatever follows |
| SemanticScholar.FormatResultsAbort | src/semanticscholar.py:320-336 | a failure in any section fails the whole formatting |
| SemanticScholar.FormatResults | src/semanticscholar.py:320-336 | the nested loop returns the formatted results of the specification function |
| SemanticScholar.QueriesOfMembers | src/semanticscholar.py:357-358 | the grouping keys are exactly the queries of the papers |
| SemanticScholar.QueriesDistinct | src/semanticscholar.py:357-358 | each query is a key once |
| SemanticScholar.OfQuery | src/semanticscholar.py:358 | a group holds only papers of its query |
| SemanticScholar.SortPermutes | src/semanticscholar.py:362-364 | sorting is a permutation: the sorted group holds the same papers, each as often |
| SemanticScholar.SortDescending | src/semanticscholar.py:362-364 | sorted papers are in descending citation count |
| SemanticScholar.SortStable | src/semanticscholar.py:362-364 | papers with equal citation counts keep their order |
| SemanticScholar.QueriesOfOrder | src/semanticscholar.py:352-358 | the dictionary keys come in order of first occurrence: each key's first paper, the least index holding that query (FirstOccLeast), comes before the next key's |
| SemanticScholar.GroupByQuery | src/semanticscholar.py:352-358 | the grouping loop yields the keys `QueriesOf`, ordered by first occurrence (QueriesOfOrder), and each key's papers |
| SemanticScholar.SelectTopPapers | src/semanticscholar.py:338-367 | the method returns the selection of the specification function |
| SemanticScholar.SelectTopOrder | src/semanticscholar.py:360-365 | the selection lists the groups in the order in which their queries first occur among the results |
| SemanticScholar.SelectTopPerQuery | src/semanticscholar.py:361-365 | the selected papers of a query are exactly its block |
| SemanticScholar.BlockBest | src/semanticscholar.py:361-365 | a block holds at most `max` papers, is a prefix of the query's papers sorted by citations, and is descending |
| SemanticScholar.SelectTopSubset | src/semanticscholar.py:338-367 | the selection is a sub-multiset of the input |
| SemanticScholar.TrimAuthors | src/semanticscholar.py:197 | a list of names keeps exactly its first three (all of them when it has fewer); a missing key gives the empty list; `None` raises |
| SemanticScholar.Issn | src/semanticscholar.py:199-200 | the ISSN is found exactly when the venue is missing, has no ISSN (both `""`) or a string ISSN (that string); any other ISSN crashes the cleaning |
| SemanticScholar.CleanIssn | src/semanticscholar.py:201 | the cleaned ISSN has no hyphen and no edge whitespace |
| SemanticScholar.WithSjr | src/semanticscholar.py:208 | the venue gains the SJR and keeps its other fields |
| SemanticScholar.PdfUrl | src/semanticscholar.py:209-213 | the PDF becomes its `url` when the dict holds one, and `None` when the PDF or its `url` key is missing |
| SemanticScholar.Admit | src/semanticscholar.py:203-223 | a paper is kept exactly when its cleaned ISSN is in the SJR map above the threshold, the venue is present and the record built from the entry with that SJR validates with more citations than the minimum, and the kept paper is that validated record; the step raises exactly when the venue is missing and the ISSN has an SJR above the threshold |
| SemanticScholar.Screen | src/semanticscholar.py:191-223 | a kept paper has more citations than the minimum; an entry crashes exactly when its authors are `None`, its ISSN is not a string, or its venue is missing while the empty ISSN has an SJR above the threshold |
| SemanticScholar.KeepAll | src/semanticscholar.py:190-225 | no more papers than entries, all above the citation minimum |
| SemanticScholar.KeepAllCrash | src/semanticscholar.py:191-223 | the batch fails exactly when some entry crashes |
| SemanticScholar.KeepAllKept | src/semanticscholar.py:191-225 | a paper is returned exactly when some entry screens to it |
| SemanticScholar.KeepAllConcat | src/semanticscholar.py:191-225 | screening distributes over concatenation of entries |
| SemanticScholar.SkipRemovable | src/semanticscholar.py:192-223 | a skipped entry can be dropped without changing the result |
| SemanticScholar.ScreenKeepIff | src/semanticscholar.py:191-223 | an entry yields a given paper exactly when its authors and ISSN are usable, its venue is present, its cleaned ISSN has an SJR above the threshold and the record built from it with that SJR validates to that paper with more citations than the minimum |
| SemanticScholar.KeptPrepared | src/semanticscholar.py:194-220 | a kept paper is the validation of the entry's own record with the query, rationale and excerpt set, its first at most three authors and its venue carrying the SJR of its cleaned ISSN, which is above the threshold |
| SemanticScholar.KeptHasIssn | src/semanticscholar.py:199-207 | a kept paper had a venue with a string ISSN |
| SemanticScholar.NoIssnSkipped | src/semanticscholar.py:200-203 | given an SJR map without the empty key, a paper with empty ISSN is never kept |
| SemanticScholar.KeepAllAborts | src/semanticscholar.py:191-223 | one crashing entry fails the batch |
| SemanticScholar.QueryBatch | src/semanticscholar.py:187-225 | the loop returns the batch result: `[]` for an empty response |
| SemanticScholar.ScreenEntry | src/semanticscholar.py:192-223 | one loop step gives the entry's outcome |
| SemanticScholar.AdmitEntry | src/semanticscholar.py:203-223 | the steps after the ISSN is cleaned give the outcome of the specification function |
| PubMed.AuthorsText | src/pubmed.py:200-202 | the author text fails exactly when authors is `None` or one of the first three is not a string |
| PubMed.AuthorsTextEtAl | src/pubmed.py:200-202 | more than three authors give the first three plus ` et al.` |
| PubMed.AuthorsTextFew | src/pubmed.py:200 | up to three authors are all joined |
| PubMed.FormatCitation | src/pubmed.py:190-217 | a citation exists exactly when the authors join; it starts with the base citation |
| PubMed.CitationPlain | src/pubmed.py:204-210 | with no DOI and no URL the citation is the base |
| PubMed.CitationShape | src/pubmed.py:210-215 | the citation is the base, the DOI part, then the URL part |
| PubMed.CitationDoiFirst | src/pubmed.py:212-213 | a truthy DOI adds ` DOI: doi.` right after the base |
| PubMed.CitationUrlLast | src/pubmed.py:214-215 | a truthy URL is appended last |
| PubMed.KeptPairs | src/pubmed.py:233-235 | only papers with a truthy abstract are kept |
| PubMed.FormatPairsKept | src/pubmed.py:231-244 | formatting finishes exactly when every paper with an abstract formats; the records come in order |
| PubMed.FormatPairsStops | src/pubmed.py:237 | once a citation fails, formatting fails whatever follows |
| PubMed.FormatResultsAbort | src/pubmed.py:219-246 | a failure in any section fails the whole formatting |
| PubMed.FormatResults | src/pubmed.py:219-246 | the nested loop returns the records of the specification function |
| MainFiles.BasenameLastSegment | main.py:110 | the file name is the part of the path after its last `/`: a suffix holding no `/`, preceded by `/` unless it is the whole path |
| MainFiles.SeenKeysIff | main.py:104-113 | a key is seen exactly when a usable result has it |
| MainFiles.KeptIndicesFirsts | main.py:106-114 | the kept results are exactly the first of each (file name, score) key, in order |
| MainFiles.UniquePathsOfKept | main.py:114 | the unique paths are the paths of the kept results |
| MainFiles.RepeatIgnored | main.py:112 | a result repeating a seen key adds nothing |
| MainFiles.ExtractTopUniqueFiles | main.py:91-115 | the loop returns the unique paths cut to `top_n` |
| ProcessOutput.SanitizeFilename | src/process_output.py:16-19 | the result is no longer than the input and holds only valid characters |
| ProcessOutput.SanitizeFilenameCounts | src/process_output.py:18-19 | each valid character keeps its count, every other is dropped |
| ProcessOutput.SanitizeFilenameConcat | src/process_output.py:19 | sanitising distributes over concatenation |
| ProcessOutput.SanitizeFilenameValid | src/process_output.py:16-19 | a valid name is unchanged |
| ProcessOutput.SanitizeFilenameIdempotent | src/process_output.py:16-19 | sanitising twice is sanitising once |
| ProcessOutput.FinalJsons | src/process_output.py:24-26 | exactly the listed names containing `_final_` and ending in `.json` |
| ProcessOutput.FinalJsonParts | src/process_output.py:33 | such a name splits on `_` into at least two parts |
| ProcessOutput.LatestNone | src/process_output.py:30-41 | nothing is found exactly when no name's timestamp parses |
| ProcessOutput.LatestGreatest | src/process_output.py:36-38 | the found time is the greatest; the first name with it wins |
| ProcessOutput.FindLatestJson | src/process_output.py:22-41 | the loop returns the latest final JSON of the specification function |
| ProcessOutput.FindLatestSpec | src/process_output.py:22-41 | the result is a listed final JSON with the greatest parsed time, and none exactly when no final name parses |

## Left out

- Logging, `print`, the rate limiter, the network, XML parsing, the CSV loader of SJR data, `query`, `parse_search_queries`, `validate_article_json`, result saving, the generators and configuration: input, output or foreign calls.
- `\d`, `\w` and the regex character classes are ASCII; Unicode digits and letters that Python's `re` also accepts are not modelled.
- Utils.RemoveDuplicates: compares contents where the source compares their MD5 digests; a hash collision is not modelled.
- Utils.RemoveDuplicates: every result carries a string `content`; a result without one, or with a non-string one, raises `KeyError` or `AttributeError` in the source, which is not modelled.
- References.ReferenceManager.RenumberReferences: article fields are strings; a non-string `content`, on which `re.sub` raises `TypeError`, is not modelled.
- The `Paper` schema and its pydantic validation are not part of this model: `_query_batch` takes validation as a parameter `validate`, and papers are records with the fields the core reads.
- Papers are values: `format_results` in `src/semanticscholar.py` sets `section` and `citation` on the objects it receives; the model returns updated copies, so aliasing of those objects is not captured.
- The number-to-reference map stores the text itself rather than a `{"raw": ...}` dictionary.
- SJR values and scores are `real`; NaN and float rounding are not modelled.
- MainFiles.ExtractTopUniqueFiles: `path` is an optional string and `score` an optional number; a path of another type is not modelled. `seen_files` is a set.
- ProcessOutput.FindLatestJson: the directory listing is a parameter and `datetime.strptime` is a parameter `parse` from text to an ordered time.
- SemanticScholar.KeptHasIssn: needs the SJR map to hold no empty ISSN, which the loader (`src/semanticscholar.py:83-84`) guarantees; the map is a parameter.
- SemanticScholar.NoIssnSkipped: needs the same premise, that the SJR map holds no empty ISSN. With an empty key above the threshold, an entry whose venue has no ISSN is screened under that key and can be kept, and an entry without a venue raises.
- SemanticScholar.QueryBatch: the response is already decoded; exceptions other than the validation error (a `None` author list, a non-string ISSN) are one `Crash` outcome that ends the batch.
- SemanticScholar.FormatCitation and PubMed.FormatCitation: a raised exception is `None`; which exception is not modelled.
