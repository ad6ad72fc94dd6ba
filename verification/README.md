# survey-viewer, modelled in Dafny

This project models the rule-based core of survey-viewer, a Streamlit app that
reads a survey export into a pandas table and shows one section per question.
The model covers the following pieces:

- **Preprocessing.** Test responses are dropped by the contact-keyword filter.
  Preprocessors can be chained into a pipeline.
- **Question extraction.** The non-metadata columns become numbered questions
  `Q<i>. <title>`. Any existing `Q<n>.` prefix is removed first.
- **Question-type detection.** A question is free text, multiple choice or
  single choice. The first rule that fires wins.
- **Counting.** Single-select and multi-select (`|`-separated) answers are
  counted the way pandas' `value_counts` counts them.
- **Pie reduction.** The pie chart keeps the Top-N entries and pools the rest
  into "Other".
- **Page dispatch.** The main page decides per question between the free-text
  listing and a chart plus its frequency table.
- **Renderer registry.** The chart factory stores renderers by key.
- **Participant view.** A selected respondent's answers are looked up.

All of it is pure: a table is a list of column names plus rows that map column
names to cells. A cell is `Missing` (pandas' NaN/None) or `Str(text)`. A
frequency table is a `Distribution`: a sequence of `Entry(name, count)` in
display order. Exceptions the code raises become `Result.Failure` values.

## Modules

- `Results`: Option and Result values. `Collect` runs a sequence of results and
  stops at the first failure.
- `Seqs`: mask selection (`frame[mask]`), positions, subsequences and the first
  index of a value.
- `Strings`: Python's `str.strip()`, the substring test, splitting on one
  character, and decimal digits.
- `Tables`: cells, rows, tables and columns.
- `Counting`: distributions and `value_counts`.
- `Detectors`: `survey_viewer/analysis/detectors.py`.
- `Aggregators`: `survey_viewer/analysis/aggregators.py`.
- `QuestionParser`: `survey_viewer/data/question_parser.py`.
- `Preprocessor`: `survey_viewer/data/preprocessor.py`.
- `PieChart`: the data reduction of
  `survey_viewer/visualization/charts/pie_chart.py`.
- `ChartFactory`: `survey_viewer/visualization/factory.py`.
- `MainContent`: `survey_viewer/ui/main_content.py`.
- `ParticipantView`: `survey_viewer/ui/participant_view.py`.
- `Scenarios`: worked examples on concrete columns.

## Model

| member | source | states |
|---|---|---|
| Strings.Trim | survey_viewer/analysis/aggregators.py:58 | `str.strip()` yields text with no whitespace at either end, never longer than its input |
| Strings.TrimSplitsPadding | survey_viewer/analysis/aggregators.py:58 | the input is whitespace, then the stripped text, then whitespace: stripping removes only padding |
| Strings.TrimOfPadded | survey_viewer/analysis/aggregators.py:58 | stripping whitespace-padded stripped text gives that text back |
| Strings.TrimIdempotent | survey_viewer/data/question_parser.py:47 | stripping already stripped text changes nothing |
| Strings.PipeSurvivesTrim | survey_viewer/analysis/detectors.py:44-45 | stripping never adds or removes a pipe |
| Strings.NatToStringUnique | survey_viewer/data/question_parser.py:21 | `str(n)` is the only decimal numeral for n without a leading zero |
| Strings.SplitOn | survey_viewer/analysis/aggregators.py:62 | splitting on the pipe gives at least one piece; no piece contains the pipe; joining the pieces with the pipe rebuilds the input |
| Strings.SplitOnJoin | survey_viewer/analysis/aggregators.py:62 | round trip: pipe-free pieces joined with the pipe split back into exactly those pieces |
| Tables.Column | survey_viewer/ui/main_content.py:38 | `df[name]` has one cell per row, and cell i is row i's value under that column |
| Tables.TrimmedValues | survey_viewer/analysis/detectors.py:30 | each present cell maps to its stripped text, position by position |
| Tables.PresentMask | survey_viewer/analysis/detectors.py:30 | `notna()` is true exactly at the present cells |
| Results.Collect | survey_viewer/ui/main_content.py:33-34 | a loop that stops at the first raised error succeeds iff every step succeeds; it then returns every step's value in order, and otherwise returns the error of a failing step |
| Results.CollectFirstFailure | survey_viewer/ui/main_content.py:33-34 | the error reported is the first failing step's: every step before it succeeded |
| Counting.Bump | survey_viewer/analysis/aggregators.py:51 | counting one more `x` adds one to `x`'s count and to the total, and touches no other label |
| Counting.Tally | survey_viewer/analysis/aggregators.py:51 | every value's count is its number of occurrences; labels are exactly the values that occur, each once; counts are positive and sum to the input length |
| Counting.Insert | survey_viewer/analysis/aggregators.py:51 | insertion adds one entry, keeps the others (as a multiset) and keeps counts non-increasing |
| Counting.InsertCounts | survey_viewer/analysis/aggregators.py:51 | insertion adds the entry's count to its label and to the total, and to nothing else |
| Counting.InsertLabels | survey_viewer/analysis/aggregators.py:51 | insertion adds the entry's label; a new label keeps the labels distinct |
| Counting.SortByCount | survey_viewer/analysis/aggregators.py:51 | the result is a permutation of the input with non-increasing counts |
| Counting.SortByCountCounts | survey_viewer/analysis/aggregators.py:51 | sorting keeps every label's count and the total |
| Counting.SortByCountLabels | survey_viewer/analysis/aggregators.py:51 | sorting keeps the set of labels and their distinctness |
| Counting.ValueCounts | survey_viewer/analysis/aggregators.py:51 | `value_counts()`: one entry per distinct value, whose count is its number of occurrences; the counts are positive, non-increasing and sum to the input length |
| Counting.DistinctLabelsPairs | survey_viewer/analysis/aggregators.py:51 | distinct labels, stated on positions: no two entries share a name |
| Counting.NonIncreasingPairs | survey_viewer/analysis/aggregators.py:51 | non-increasing counts, stated on positions: an earlier entry's count is never below a later one's |
| Counting.CountOfDistinct | survey_viewer/ui/main_content.py:95-99 | with distinct labels, a row of the frequency table holds its label's whole count |
| Counting.LabelsArePositiveCounts | survey_viewer/analysis/aggregators.py:51 | with positive counts, a label has an entry iff its count is positive |
| Aggregators.SingleLabel | survey_viewer/analysis/aggregators.py:26-32 | with `include_blank`, a missing or blank cell counts as "Blank" and every cell counts; without it, exactly the cells that are non-empty after stripping count; in both modes an answered cell is counted under exactly its stripped text |
| Aggregators.SingleSelectLabels | survey_viewer/analysis/aggregators.py:26-32 | as many labels as cells with `include_blank`, else as many as answered cells; no label is empty or padded |
| Aggregators.SingleSelectLabelsCount | survey_viewer/analysis/aggregators.py:26-32 | each label occurs among the labels as often as the cells counted under it |
| Aggregators.SingleSelectAggregate | survey_viewer/analysis/aggregators.py:20-32 | each label's count equals the number of cells counted under it; the total is the number of cells with `include_blank` and the number of answered cells without it; no "" label; counts are positive and non-increasing |
| Aggregators.SingleAnswerCounted | survey_viewer/analysis/aggregators.py:26-32 | a single stripped answer is counted once under itself, with or without blanks |
| Aggregators.LiteralBlankAnswerCounted | survey_viewer/analysis/aggregators.py:30-32 | without `include_blank`, an answer that literally reads "Blank" is still counted under "Blank" |
| Aggregators.KeepTokens | survey_viewer/analysis/aggregators.py:62 | the kept pieces are non-empty and stripped; stripping adds no pipe |
| Aggregators.TrimAll | survey_viewer/analysis/aggregators.py:62 | the stripped piece at every position, one per piece |
| Aggregators.NonBlankMask | survey_viewer/analysis/aggregators.py:62 | a piece is marked exactly when it is not empty once stripped |
| Aggregators.KeepTokensSelects | survey_viewer/analysis/aggregators.py:62 | the list comprehension is the stripped pieces filtered by the non-blank mask |
| Aggregators.KeepTokensExact | survey_viewer/analysis/aggregators.py:62 | the kept tokens are the stripped pieces at exactly the positions whose piece is non-blank, in order |
| Aggregators.SplitPipe | survey_viewer/analysis/aggregators.py:53-62 | `_split_pipe` gives no tokens for a missing cell or for text that strips to "", to "nan" in any case, or to "."; every token is non-empty, stripped and free of the pipe |
| Aggregators.KeepTokensOfTokens | survey_viewer/analysis/aggregators.py:62 | pieces that are already non-empty and stripped are all kept, unchanged |
| Aggregators.SplitPipeJoin | survey_viewer/analysis/aggregators.py:53-62 | round trip: a cell holding options joined with the pipe splits back into exactly those options |
| Aggregators.SplitPipeExact | survey_viewer/analysis/aggregators.py:58-62 | for text that is not read as no answer, the tokens are the stripped pipe-separated pieces of the stripped text at exactly the non-blank positions, in order |
| Aggregators.SplitPipePadded | survey_viewer/analysis/aggregators.py:8 | whitespace around the cell and around the pipe is dropped: two options with any such padding split into exactly those two options |
| Aggregators.SplitPipeEmptyPiece | survey_viewer/analysis/aggregators.py:62 | an empty or all-space piece between two pipes is dropped: "a, pipe, pipe, b" splits into exactly a and b |
| Aggregators.Contribution | survey_viewer/analysis/aggregators.py:41-46 | a row adds exactly its own tokens, in order, or exactly one "Blank" when it has none and blanks are counted |
| Aggregators.MultiSelectTokens | survey_viewer/analysis/aggregators.py:41-46 | the pooled tokens hold each label as often as the rows' contributions do; their number is the tokens of all rows plus, with blanks counted, one per empty row |
| Aggregators.MultiSelectAggregate | survey_viewer/analysis/aggregators.py:38-51 | each label's count is its number of occurrences over all rows' contributions; the total is the sum of the contributions; the result is empty exactly when nothing was collected; labels are stripped and pipe-free, with positive non-increasing counts |
| Aggregators.MultiSelectTotalBounds | survey_viewer/analysis/aggregators.py:41-46 | every row that chose something adds at least one to the total, and with blanks counted every row does |
| Aggregators.GetAggregator | survey_viewer/analysis/aggregators.py:65-69 | the multi-select aggregator exactly when asked for multi-select |
| Aggregators.Aggregate | survey_viewer/analysis/aggregators.py:15 | both aggregators give distinct non-blank labels whose positive counts are non-increasing and agree with each aggregator's reference count |
| Detectors.PresentTrimmed | survey_viewer/analysis/detectors.py:30 | exactly the stripped texts of the present cells, in row order |
| Detectors.DetectQuestionType | survey_viewer/analysis/detectors.py:19-56 | precedence TEXT > MULTI_SELECT > SINGLE_SELECT: a contact title, a text hint or long answers give TEXT; otherwise "최대" or a pipe in a present answer gives MULTI_SELECT; SINGLE_SELECT means neither rule fired |
| Seqs.CountTrueNone | survey_viewer/analysis/detectors.py:31-32 | a mask with no `true` selects nothing |
| Seqs.SelectPicksPositions | survey_viewer/analysis/detectors.py:30 | selecting by a mask, as `dropna` and `frame[mask]` do, keeps the elements at exactly the masked-in positions, in their order |
| Detectors.AllMissingNotLong | survey_viewer/analysis/detectors.py:30-32 | an all-missing column is never free text by length; it is TEXT iff the title says so, and otherwise falls through to the choice rules |
| Detectors.MeanAboveIff | survey_viewer/analysis/detectors.py:34 | the mean of n lengths exceeds the threshold iff their sum exceeds threshold × n |
| Detectors.LongAnswersIntegerForm | survey_viewer/analysis/detectors.py:30-34 | the length rule (`LongAnswers`) holds iff some answer is present and the summed stripped lengths exceed 80 × their number |
| Detectors.IsTextQuestionIff | survey_viewer/analysis/detectors.py:19-34 | `IsTextQuestion` holds iff the title has the contact marker or a hint phrase, or the present stripped answers sum to more than 80 characters per answer |
| Detectors.IsMultiSelectOfPresent | survey_viewer/analysis/detectors.py:37-45 | `IsMultiSelect` holds iff the title has "최대" or some present answer contains the pipe; the stripped answers give the same verdict |
| Detectors.ContactTitleIsText | survey_viewer/analysis/detectors.py:22-23 | a contact-details title is free text whatever the answers are |
| QuestionParser.AnchorId | survey_viewer/data/question_parser.py:18-21 | the anchor is "q" followed by the id's decimal digits, with no leading zero (exactly Python's `str(id)`) |
| QuestionParser.AnchorIdIsDecimal | survey_viewer/data/question_parser.py:21 | any string meeting `AnchorId`'s contract is "q" + `str(id)`, so the contract determines the anchor |
| QuestionParser.AnchorIdInjective | survey_viewer/data/question_parser.py:18-21 | different ids give different anchors |
| QuestionParser.EffectiveMetaColumns | survey_viewer/data/question_parser.py:27-28 | an absent or empty metadata set falls back to the default, and any other is used as given |
| QuestionParser.QPrefixEnd | survey_viewer/data/question_parser.py:47 | where a leading `\s*Q\d+\.` ends, if the title has one, inside the title (`QPrefixEndIff` states when it is found) |
| QuestionParser.QPrefixEndIff | survey_viewer/data/question_parser.py:47 | the head is found exactly when the title is whitespace + "Q" + digits + "." + rest, and then it ends right where rest begins |
| QuestionParser.QPrefixEndSplit | survey_viewer/data/question_parser.py:47 | a found head decomposes the title into whitespace, "Q", digits, "." and rest |
| QuestionParser.NumberedHeadEnd | survey_viewer/data/question_parser.py:47 | on whitespace + "Q" + digits + "." + rest the head ends right before rest |
| QuestionParser.StripQPrefix | survey_viewer/data/question_parser.py:45-47 | the stripped title has no surrounding whitespace and is never longer than the title |
| QuestionParser.StripQPrefixOfNumbered | survey_viewer/data/question_parser.py:47 | on whitespace + "Q" + digits + "." + rest the result is the stripped rest |
| QuestionParser.QPrefixEndAt | survey_viewer/data/question_parser.py:47 | the numbered head is found right after the leading whitespace, and ends after its "." |
| QuestionParser.StripQPrefixOfPlain | survey_viewer/data/question_parser.py:47 | a title that is not whitespace + "Q" + digits + "." + rest is only stripped |
| QuestionParser.DisplayTitleRoundTrip | survey_viewer/data/question_parser.py:36 | stripping the prefix of a display title gives the stripped column title back |
| QuestionParser.DisplayTitleShape | survey_viewer/data/question_parser.py:36 | `DisplayTitle` is "Q", the id's digits, ". ", and the stripped column title |
| QuestionParser.DisplayTitleNumber | survey_viewer/data/question_parser.py:36 | the id can be read back from the digits after the title's leading "Q" |
| QuestionParser.DisplayTitleInjective | survey_viewer/data/question_parser.py:36 | different ids give different display titles, whatever the columns |
| QuestionParser.QuestionMask | survey_viewer/data/question_parser.py:32 | a column is selected iff it is not a metadata column |
| QuestionParser.QuestionColumns | survey_viewer/data/question_parser.py:32 | every question column is a table column outside the metadata set |
| QuestionParser.QuestionColumnsExact | survey_viewer/data/question_parser.py:32 | the question columns are exactly the non-metadata columns, in table order |
| QuestionParser.Parse | survey_viewer/data/question_parser.py:30-43 | one question per question column, in order, ids dense from 1, each titled "Q<id>. " + the stripped column title, titles pairwise distinct |
| QuestionParser.NumberedTitlesDistinct | survey_viewer/data/question_parser.py:35-40 | questions numbered 1, 2, ... have pairwise different titles |
| QuestionParser.ColumnMap | survey_viewer/data/question_parser.py:49-51 | every title is a key and every key is a title; with distinct titles the map has one entry per question, mapping its title to its column |
| QuestionParser.ColumnMapStep | survey_viewer/data/question_parser.py:51 | adding one question to the comprehension keeps those facts |
| QuestionParser.ReparseIsStable | survey_viewer/data/question_parser.py:30-47 | parsing the relabelled columns reproduces the same titles, when no title is a metadata name |
| QuestionParser.RetitledQuestion | survey_viewer/data/question_parser.py:36 | a question re-titled under its own number keeps its title |
| QuestionParser.AllQuestionColumns | survey_viewer/data/question_parser.py:32 | with no metadata column present, every column is a question |
| QuestionParser.DisplayTitleIdempotent | survey_viewer/data/question_parser.py:36 | titling a display title again under the same id changes nothing |
| Preprocessor.NewTestResponseFilter | survey_viewer/data/preprocessor.py:22-28 | an absent or empty keyword list falls back to the default; a non-empty one is kept |
| Preprocessor.MatchesKeywordsSingle | survey_viewer/data/preprocessor.py:34-35 | one keyword matches exactly the texts that contain it |
| Preprocessor.MatchesKeywordsConcat | survey_viewer/data/preprocessor.py:34-35 | joining keyword lists with the pipe matches a text exactly when either list matches it |
| Preprocessor.MatchesKeywordsExtended | survey_viewer/data/preprocessor.py:35 | `IsTestRow` is a substring search: a matching contact text still matches with more text around it |
| Preprocessor.KeepMask | survey_viewer/data/preprocessor.py:35-36 | a row is kept iff its contact text matches no keyword |
| Preprocessor.FilterTestResponses | survey_viewer/data/preprocessor.py:30-36 | without a contact column the table comes back unchanged; otherwise the columns are kept, the rows are an order-preserving subsequence, and no kept row is a test response |
| Preprocessor.FilterTestResponsesExact | survey_viewer/data/preprocessor.py:34-36 | the kept rows are exactly the rows at the positions whose contact text matches no keyword, in order; every dropped row matches a keyword |
| Preprocessor.Process | survey_viewer/data/preprocessor.py:14-16 | every preprocessor keeps the columns and returns an order-preserving subsequence of the rows; a test-response filter is `FilterTestResponses` and a pipeline runs its stages |
| Preprocessor.RunStages | survey_viewer/data/preprocessor.py:45-49 | no stages leave the table unchanged; any stages keep the columns and a subsequence of the rows |
| Preprocessor.RunStagesAppend | survey_viewer/data/preprocessor.py:45-49 | the pipeline is left-to-right composition: running a + b is running a, then b |
| Preprocessor.SingleStagePipeline | survey_viewer/data/preprocessor.py:45-49 | a one-stage pipeline behaves like its stage |
| PieChart.TopNWithOther | survey_viewer/visualization/charts/pie_chart.py:22-26 | at most top_n entries come back unchanged; otherwise the first top_n entries in order, then "Other" carrying the sum of the rest; the total is preserved |
| PieChart.RenderPie | survey_viewer/visualization/charts/pie_chart.py:18-26 | empty data gives no figure and the data itself; otherwise a figure of the reduced data; the total is preserved |
| PieChart.TopNCounts | survey_viewer/visualization/charts/pie_chart.py:23-26 | the reduction moves counts only into "Other": other labels keep their counts from the kept entries |
| PieChart.TopNExample | survey_viewer/visualization/charts/pie_chart.py:23-26 | A 5, B 3, C 2, D 1 reduced to two slices is A 5, B 3, Other 3 |
| ChartFactory.Render | survey_viewer/visualization/charts/pie_chart.py:13-26 | the pie renderer returns the pie reduction; the text renderer draws nothing and returns its data; both preserve the total |
| ChartFactory.EmptyFactory | survey_viewer/visualization/factory.py:13-14 | a new factory has no renderer |
| ChartFactory.Register | survey_viewer/visualization/factory.py:16-18 | the key now holds the renderer; the keys grow by that key alone; other keys keep their renderers |
| ChartFactory.Get | survey_viewer/visualization/factory.py:20-24 | succeeds iff the key is registered, with its renderer; otherwise fails with "Unknown chart type: <key>" |
| ChartFactory.GetAfterRegister | survey_viewer/visualization/factory.py:16-24 | after `register(k, r)`, `get(k)` returns r, even over an earlier registration |
| ChartFactory.GetOtherAfterRegister | survey_viewer/visualization/factory.py:18-24 | registering under k changes no lookup of another key, failing ones included |
| ChartFactory.GetForQuestionType | survey_viewer/visualization/factory.py:26-30 | TEXT looks up "text"; every other type looks up "pie" |
| ChartFactory.CreateDefaultFactory | survey_viewer/visualization/factory.py:33-38 | the keys are exactly "pie" and "text", each holding the renderer of that chart type |
| ChartFactory.DefaultFactoryServesEveryType | survey_viewer/visualization/factory.py:26-38 | in the default factory every type finds a renderer, a pie exactly for non-text types |
| MainContent.ListMask | survey_viewer/ui/main_content.py:57-58 | a cell is listed iff it is present and its stripped text is neither "" nor "." |
| MainContent.TextListing | survey_viewer/ui/main_content.py:55-60 | no more answers than cells; each is stripped, non-empty and not "." |
| MainContent.TextListingExact | survey_viewer/ui/main_content.py:57-58 | the listing is exactly the stripped texts of the listable cells, in row order |
| MainContent.ChartBody | survey_viewer/ui/main_content.py:70-99 | no counts give the no-data path; non-empty counts with "pie" registered give a chart with the renderer's figure flag, and a missing "pie" renderer fails like `get`; the chart shows the pie renderer's reduced data and the table shows the unreduced counts, with equal totals |
| MainContent.RenderQuestion | survey_viewer/ui/main_content.py:36-53 | the section carries the question's anchor and title; TEXT questions are listed and never aggregated; other types are charted with the aggregator their type selects |
| MainContent.RenderAll | survey_viewer/ui/main_content.py:31-34 | the page succeeds iff every question renders, and then has one section per question, in question order |
| MainContent.DefaultFactoryRendersEveryQuestion | survey_viewer/ui/main_content.py:70-84 | with the default factory no question fails; a question that is not free text gets a chart when it has counts and the no-data path when it has none; a chart has a figure and is a pie of the top `topN` plus "Other" beside non-empty full counts |
| MainContent.DefaultFactoryRendersAll | survey_viewer/ui/main_content.py:31-34 | with the default factory the whole page renders, one section per question with that question's title |
| MainContent.PieSlicesBounded | survey_viewer/ui/sidebar.py:48 | with the slider's range for `topN`, a pie has at most 16 slices |
| ParticipantView.DistinctPresent | survey_viewer/ui/participant_view.py:25 | the listed participants are exactly the present names, each once |
| ParticipantView.DistinctPresentOrder | survey_viewer/ui/participant_view.py:25 | participants are listed in order of first appearance in the column |
| ParticipantView.NoneDistinctIffAllMissing | survey_viewer/ui/participant_view.py:25-28 | there are no participants iff every cell of the column is missing |
| ParticipantView.AnswerLines | survey_viewer/ui/participant_view.py:47-56 | one line per question, in question order: the question's title and the row's answer |
| ParticipantView.Lookup | survey_viewer/ui/participant_view.py:17-56 | no participant column gives the warning; no present name gives "no data"; a name without a row gives "no answers"; otherwise the first matching row's answers, one line per question |
| ParticipantView.OfferedParticipantHasAnswers | survey_viewer/ui/participant_view.py:31-42 | a participant picked from the offered list always has a row, so the "no answers" warning is unreachable through the select box |
| ParticipantView.MissingIsNeverEmpty | survey_viewer/ui/participant_view.py:49-55 | `AnswerText`: a missing cell shows as "(무응답)" and never as empty text; a present cell shows its text |
| Scenarios.SumLengthsBound | survey_viewer/analysis/detectors.py:34 | n lengths of at most `bound` sum to at most bound × n |
| Scenarios.PresentTrimmedBounded | survey_viewer/analysis/detectors.py:30 | stripping never makes an answer longer |
| Scenarios.ShortAnswersNotLong | survey_viewer/analysis/detectors.py:30-34 | answers no longer than 80 characters never trigger the length rule |
| Scenarios.PreferredTimeTitleMarkers | survey_viewer/analysis/detectors.py:22-27 | a title with "최대" and no text marker is not free text by its title |
| Scenarios.PreferredTimeIsMultiSelect | survey_viewer/analysis/detectors.py:48-56 | the preferred-time question ("at most 2 choices") is MULTI_SELECT |
| Scenarios.SplitPipeOne | survey_viewer/analysis/aggregators.py:53-62 | a cell holding one option splits into that option |
| Scenarios.SplitPipeTwo | survey_viewer/analysis/aggregators.py:53-62 | a cell holding "a pipe b" splits into a and b |
| Scenarios.TokenHitsThree | survey_viewer/analysis/aggregators.py:41-46 | the reference counts of a three-row column, row by row |
| Scenarios.TwoChoiceHits | survey_viewer/analysis/aggregators.py:41-46 | rows choosing {a, b}, {b} and nothing count a once, b twice, three in all |
| Scenarios.TwoChoiceCounts | survey_viewer/analysis/aggregators.py:38-51 | on the column "a pipe b", "b", missing, without blanks: b counts 2, a counts 1, and the total is 3 |
| Scenarios.PreferredTimeCounts | survey_viewer/analysis/aggregators.py:38-51 | on "morning pipe evening", "evening", missing: evening counts 2, morning 1, total 3 |

## Left out

- Reading the Excel file and choosing a sheet (`survey_viewer/data/loader.py`)
  is file I/O and is left out. So are page and font settings
  (`survey_viewer/config/settings.py`) and the app wiring (`app.py`).
- The Streamlit widgets are left out: markdown, subheaders, captions, data
  frames, dividers, warnings. The model returns what each view would show
  (`Section`, `Outcome`) instead of drawing it.
- The participant select box is a parameter: `Lookup` takes the chosen name.
- The sidebar's `top_n` slider enters only as the range 3..15 in
  `MainContent.ValidOptions`.
- Matplotlib figures are modelled by a `hasFigure` flag. The percentage column
  of the frequency table is floating-point rounding and is left out.
- `survey_viewer/visualization/charts/text_list.py` holds only an identity
  renderer; it is the `TextListRenderer` case of `ChartFactory.Renderer`.
- `survey_viewer/visualization/base.py`'s abstract `ChartRenderer` is the
  `ChartFactory.Renderer` datatype. Its `ChartOptions` enters only as the
  `topN` argument of `ChartFactory.Render`. `include_blank` is applied before
  rendering, by the aggregators, and `figsize` concerns drawing only.
  `DisplayOptions` holds the sidebar's settings.
- `survey_viewer/config/constants.py` is not part of this model. `META_COLS`,
  `CONTACT_COL` and `EXCLUDE_CONTACT_KEYWORDS` are parameters (`defaultMeta`,
  `contactColumn`, `defaultKeywords`).
- The keyword filter joins the keywords with `|` into a regular expression.
  The model treats each keyword as a literal substring, so regular-expression
  metacharacters inside a keyword are not modelled. An empty keyword list gives
  the empty pattern, which matches every row, and the model keeps that.
- `\d` in the `Q<n>.` prefix pattern is read as an ASCII digit. Python also
  matches other Unicode decimal digits.
- The multi-select split `\s*\|\s*` is modelled as splitting on `|` and then
  stripping every piece. This gives the same tokens, because the cell text is
  stripped first and empty pieces are dropped.
- Numeric cells are not modelled. Every present cell is text, so `astype(str)`
  of a number is left out.
- NaN and None are both `Missing`. The contact filter reads a missing contact
  as the text "nan".
- Counting.ValueCounts: ties between equal counts keep first-appearance order
  here. pandas promises no tie order, so the contracts state only
  non-increasing counts and exact per-label counts.
- Detectors.LongAnswers: the mean is exact real division, not floating point.
  `Detectors.MeanAboveIff` relates it to the integer test.
- The answer-table and listing row numbers that `reset_index` and pandas'
  index carry are implicit in sequence positions.
- A question whose column is not in the table raises `KeyError` in the code.
  `RenderQuestion`, `RenderAll` and `Lookup` instead require every question's
  column to exist, because the parser only produces questions from existing
  columns.
- MainContent.RenderAll: when a question fails (only when "pie" is not
  registered), the app has already drawn the earlier questions' sections and
  that question's anchor and heading. The model returns only the error, not
  that partial page. `MainContent.DefaultFactoryRendersAll` shows that the
  default factory never fails.

## Notes on the design

Without `include_blank`, the single-select aggregator drops missing and blank
cells. An answer that literally reads "Blank" is still counted under "Blank",
because the code filters on emptiness, not on the label
(`Aggregators.LiteralBlankAnswerCounted`). The sidebar presents the option as
including or excluding no-response answers ("무응답(Blank) 포함",
`survey_viewer/ui/sidebar.py:47`); the model follows the code.
