# Consumer-complaint risk scoring, modelled in Dafny

This project models the core of a consumer-complaint risk pipeline. It has two scripts.

The cleaning script (`data_cleaning.py`) does three things:

- it keeps six columns;
- it drops the complaints that have no narrative;
- it normalises each narrative: lower-case, delete every character that is neither a word character nor whitespace, then strip both ends.

The scoring script (`sentiment_severity.py`) does four things:

- it checks the input columns;
- it gives every complaint a sentiment label (Positive, Negative or Neutral) from an external analyzer's compound score;
- it derives a severity tier (High, Medium or Low) from the sentiment, the issue text and the product text;
- it does this in fixed-size batches and concatenates the batches in order. It then reports the tier counts and the product with the most High complaints.

Modules, one per component:

| module | file | models |
|---|---|---|
| `Text` | text.dfy | ASCII character classes, `str.lower`, substring `in`, `str.strip` |
| `Frame` | frame.dfy | data frames: cells that may be missing, named columns, `df[cols]`, the errors raised |
| `DataCleaning` | cleaning.dfy | the cleaning script |
| `SentimentScorer` | sentiment.dfy | `get_sentiment` |
| `SeverityClassifier` | severity.dfy | `assign_severity` |
| `BatchOrchestrator` | batching.dfy | the batch loop and the final concatenation |
| `Scoring` | scoring.dfy | the column guards and the scoring run over a frame |
| `Reporting` | reporting.dfy | the severity counts and the top-risk product |

Decisions a reader should know:

- **Sentiment analyzer.** The analyzer is a parameter `polarity: string -> real`. Scores are real numbers. The thresholds are the literals 0.05 and -0.05.
- **Missing cells.** A missing cell is `Cell.Missing`. Python's `str()` turns it into the text `"nan"` (`Frame.Str`), and that is the text the analyzer and the rule see.
- **Characters.** The model uses ASCII only:
  - `\w` is `[A-Za-z0-9_]`;
  - whitespace is codes 9-13 and 28-32, the ASCII part of Python's whitespace, used for both `\s` and `strip()`;
  - lower-casing maps `A-Z` to `a-z`;
  - any non-ASCII character counts as neither a word character nor whitespace.

  Python handles Unicode in all three places, so this is an abstraction.
- **Narratives may end up empty.** One might expect every kept narrative to be non-empty after cleaning. The code does not ensure this: a narrative of only punctuation, such as `"!!!"`, becomes `""` and the row is kept. The model follows the code.
- **Batch size.** The scoring run takes the batch size as a parameter. Its contract is the same for every positive size, so chunk boundaries have no effect on the output. The script uses 50000.

## Model

| member | source | states |
|---|---|---|
| `Text.ToLower` | data_cleaning.py:14 | lower-casing keeps the length and maps each character on its own: upper-case ASCII letters to lower case, all else unchanged |
| `Text.ToLowerIdempotent` | sentiment_severity.py:43-45 | lower-casing twice is lower-casing once |
| `Text.Contains` | sentiment_severity.py:61-62 | the executable `needle in hay` scan is true exactly when some window of `hay` equals `needle` |
| `Text.OccursTransitive` | sentiment_severity.py:61-62 | a substring of a substring is a substring |
| `Text.Strip` | data_cleaning.py:14 | `strip()` returns a contiguous piece of its input with no whitespace at either end, and everything it cut off is whitespace |
| `Frame.Select` | data_cleaning.py:7-8 | `df[cols]` fails with a KeyError that names exactly the absent columns. Otherwise the result has exactly the columns `cols`, in order, the same number of rows, and each cell is taken from the same row under the same column name |
| `DataCleaning.KeepWordAndSpace` | data_cleaning.py:14 | deleting `[^\w\s]` leaves only word characters and whitespace, never lengthens, and adds no upper-case letter |
| `DataCleaning.KeepWordAndSpaceAppend` | data_cleaning.py:14 | the deletion works character by character: it distributes over concatenation |
| `DataCleaning.KeepWordAndSpaceOne` | data_cleaning.py:14 | a single character survives exactly when it is a word character or whitespace |
| `DataCleaning.NormaliseNarrative` | data_cleaning.py:14 | a cleaned narrative is the lower-cased input with every character outside `\w` and `\s` deleted, and then only whitespace cut from its two ends, so whitespace between words survives. It has no upper-case letter, holds only word characters and whitespace, has no whitespace at either end, and is no longer than the input. Its word characters are exactly those of the input, lower-cased and in the same order |
| `DataCleaning.WordCharsLower` | data_cleaning.py:14 | lower-casing keeps exactly the word characters, each lower-cased, in order |
| `DataCleaning.WordCharsOfKeep` | data_cleaning.py:14 | deleting `[^\w\s]` loses no word character |
| `DataCleaning.StripKeepsWordChars` | data_cleaning.py:14 | `strip()` loses no word character |
| `DataCleaning.NormaliseIdempotent` | data_cleaning.py:14 | cleaning a cleaned narrative changes nothing |
| `DataCleaning.CleanRows` | data_cleaning.py:11-14 | the output has one row per input row with a narrative, and each output row has a present, cleaned narrative |
| `DataCleaning.CleanRowsAppend` | data_cleaning.py:11 | rows are kept or dropped one at a time and kept rows keep their relative order: the step distributes over concatenation |
| `DataCleaning.CleanRowsOne` | data_cleaning.py:11-14 | a row is kept, with its narrative cleaned and other cells unchanged, exactly when its narrative is present |
| `DataCleaning.CleanRow` | data_cleaning.py:14 | the narrative cell becomes the normalised form of the old narrative, so the row is clean; every other cell and the row length are unchanged |
| `DataCleaning.Clean` | data_cleaning.py:7-14 | the script fails with a KeyError exactly when an essential column is absent, naming the absent ones. Otherwise the result has exactly the six columns in order and is well formed, and its rows are the projected input rows put through the row step in order: a row with a narrative is kept with that narrative normalised, a row without one is dropped (with `CleanRowsAppend` and `CleanRowsOne`). There is one row for each input row with a narrative |
| `DataCleaning.CountPresentCounts` | data_cleaning.py:11 | the count of kept rows is the number of rows whose narrative is present |
| `SentimentScorer.Label` | sentiment_severity.py:36-40 | Positive exactly when the score is above 0.05, Negative exactly when it is below -0.05, and Neutral exactly when it is in the closed interval [-0.05, 0.05] |
| `SentimentScorer.Score` | sentiment_severity.py:34-40 | the label of a text is decided by its analyzer score alone, with the same thresholds |
| `SentimentScorer.LabelSymmetric` | sentiment_severity.py:36-39 | the thresholds are symmetric: negating a score swaps Positive and Negative and keeps Neutral |
| `SentimentScorer.LabelMonotone` | sentiment_severity.py:36-40 | a higher score never gives a more negative label |
| `SentimentScorer.LabelBoundaries` | sentiment_severity.py:36-40 | exactly 0.05 and exactly -0.05 are Neutral, and anything beyond them is Positive or Negative |
| `SeverityClassifier.MentionsAny` | sentiment_severity.py:61-62 | `any(k in text for k in terms)` is true exactly when some term occurs in the text |
| `SeverityClassifier.Assign` | sentiment_severity.py:42-69 | High exactly when the sentiment is Negative and a risk keyword occurs in the lower-cased issue or a risk product occurs in the lower-cased product. Medium exactly when it is Negative with neither. Low exactly when it is not Negative. The rule is total and gives one tier |
| `SeverityClassifier.AssignIgnoresCase` | sentiment_severity.py:43-45 | issue and product texts that agree after lower-casing get the same tier |
| `SeverityClassifier.AssignOfLowered` | sentiment_severity.py:43-45 | lower-casing the inputs beforehand does not change the tier |
| `SeverityClassifier.SignalGrows` | sentiment_severity.py:60-63 | if an issue or product has a risk term, any text containing it has one too |
| `SeverityClassifier.AssignMonotone` | sentiment_severity.py:60-69 | embedding the issue and product in longer texts never lowers the tier |
| `SeverityClassifier.IssueKeywordExample` | sentiment_severity.py:43-62 | worked case: any issue opening with the capitalised "Unauthorized", whatever follows and whatever the product, with Negative sentiment is High, because matching is on the lower-cased issue |
| `SeverityClassifier.ProductExample` | sentiment_severity.py:45-63 | worked case: the product "Credit card" with Negative sentiment is High, whatever the issue says |
| `SeverityClassifier.NoSignalExample` | sentiment_severity.py:60-67 | worked case: a Negative complaint whose issue and product hold no risk term is Medium |
| `SeverityClassifier.GateExample` | sentiment_severity.py:60-69 | worked case: Positive or Neutral sentiment gives Low even with "fraud" in the issue and "credit card" as the product |
| `BatchOrchestrator.BoundsFrom` | sentiment_severity.py:75-76 | the loop from a start visits no slice exactly when the start is at or past the frame's end |
| `BatchOrchestrator.Batches` | sentiment_severity.py:75-76 | `range(0, n, size)` visits no slice exactly when the frame is empty, and the first slice is `[0, min(size, n))` |
| `BatchOrchestrator.BoundsInRange` | sentiment_severity.py:75-76 | every slice `[start, min(start + size, n))` is non-empty, holds at most `size` rows and lies inside the frame |
| `BatchOrchestrator.BoundsContiguous` | sentiment_severity.py:75-76 | the slices are laid end to end, from the first start to `n`, and every slice but the last holds exactly `size` rows |
| `BatchOrchestrator.BatchesPartition` | sentiment_severity.py:75-76 | the slices of `range(0, n, size)` partition `[0, n)` into contiguous pieces of 1 to `size` rows, every piece but the last holds exactly `size` rows, and there are none when `n` is 0 |
| `BatchOrchestrator.ProcessInBatches` | sentiment_severity.py:75-83 | the loop produces one chunk per slice, each chunk is the per-row scoring of its slice, and the chunks laid end to end are the per-row scoring of the whole input, whatever the batch size |
| `BatchOrchestrator.ConcatAfterBatches` | sentiment_severity.py:75-85 | the loop followed by `pd.concat` as written fails with "No objects to concatenate" exactly when the frame is empty; on every other frame it gives the per-row scoring of the whole frame, as the corrected run does |
| `BatchOrchestrator.EmptyInputFailsAsWritten` | sentiment_severity.py:75-85 | a frame with no rows yields no slices, so the concatenation as written fails |
| `Frame.Str` | sentiment_severity.py:43-45 | `str()` of a cell is its text, and `"nan"` for a missing cell; the sentiment analyzer receives the narrative the same way (line 35) |
| `Scoring.AddColumn` | sentiment_severity.py:24-25 | `df["Issue"] = ""` appends one column with the value in every row and keeps the frame well formed |
| `Scoring.PrepareColumns` | sentiment_severity.py:24-28 | fails exactly when Product is absent, with the script's own error. An existing Issue column leaves the frame unchanged; a missing one is appended holding empty text |
| `Scoring.ScoreTable` | sentiment_severity.py:72-85 | the corrected run (see "## Findings"): it fails with the Product error when Product is absent, and with a KeyError when there are rows but no narrative column; it succeeds exactly otherwise, an empty frame included, where the script as written fails at line 85. On success it keeps every row in place with one cell per output column: the input cells, then `""` for an Issue column the guard added. Each row is labelled as that row alone would be, for any batch size: the narrative's sentiment, then the severity from the issue (empty when the column was absent), the product and that sentiment |
| `Scoring.ScoreRowCells` | sentiment_severity.py:24-25 | a scored row keeps its cells: the input row, then `""` in the Issue column the guard added |
| `Scoring.ScoreRowReadsInput` | sentiment_severity.py:80-81 | scoring one prepared row keeps its cells and reads the narrative, issue and product of the matching input row, with `str()` of a missing cell |
| `Reporting.CountTierCounts` | sentiment_severity.py:93 | the count of a tier is the number of rows in that tier |
| `Reporting.TierCountsPartition` | sentiment_severity.py:93 | each scored row is counted in exactly one severity tier |
| `Reporting.HighProducts` | sentiment_severity.py:95-98 | the counted products are exactly the present product cells of High rows |
| `Reporting.HighProductsCounts` | sentiment_severity.py:95-98 | each product occurs in the counted list as many times as there are High rows holding it, so missing products are dropped and nothing else is lost |
| `Reporting.MostFrequent` | sentiment_severity.py:97-98 | `value_counts().idxmax()` on a non-empty list returns one of its products, and no product occurs more often than it |
| `Reporting.TopRiskProduct` | sentiment_severity.py:95-100 | "N/A" when no row is High. With High rows: a KeyError without a Product column, an `idxmax` failure when no High row has a product, and otherwise the product of some High row such that no product is held by more High rows |

## Findings

| source | as written | input that shows it | evidently intended | confidence | as-written member | corrected member |
|---|---|---|---|---|---|---|
| sentiment_severity.py:75-85 | the chunks collected by the batch loop go to `pd.concat`, which raises "No objects to concatenate" on an empty list | a cleaned file with a header and no rows: `range(0, 0, 50000)` is empty, so no chunk is collected | an empty scored table, then "N/A" as the top-risk product | medium, not executed | `BatchOrchestrator.ConcatAfterBatches` (shown by `BatchOrchestrator.EmptyInputFailsAsWritten`) | `Scoring.ScoreTable` (returns the chunks laid end to end, empty for an empty frame) |

## Left out

- The sentiment analyzer's lexicon and the lexicon download (sentiment_severity.py:5,10,31): the analyzer is the parameter `polarity`.
- Floating point: scores are reals. VADER rounds the compound score to four decimals, so comparing with the float 0.05 behaves like comparing with the real 0.05.
- CSV reading and writing, `os.makedirs` and every `print`: these are input and output.
  - One effect of this: an empty cleaned narrative is written as an empty field. The scoring script reads it back as a missing cell, so the analyzer sees `"nan"`. The model starts each script from a frame already in memory.
- Type inference by the CSV reader: every present cell is text.
- Duplicate column names: frames are assumed to have distinct column names, as the CSV reader renames duplicates.
- The pie and bar charts (sentiment_severity.py:106-128), analysis.py, the dashboard in app.py, and the classifier training in classification.py: these are rendering or third-party model fitting.
- Unicode: the ASCII character model above stands in for Python's Unicode-aware lower-casing, `\w`, `\s` and `strip()`.
- Scoring.ScoreTable: the input frame is assumed to have no Sentiment or Severity column. The script assigns both columns (sentiment_severity.py:80-81) and would overwrite such a column in place, while the model keeps every input cell and returns the labels in fields of their own. The cleaned file the script reads never has either column.
- Reporting.TopRiskProduct: states only that the answer has the maximal count. pandas does not fix which of several equally frequent products `value_counts().idxmax()` returns. The model returns the first one met in row order.
- The number of slices (the ceiling of `n / size`) is not stated; the slices are characterised by the partition lemmas instead.
