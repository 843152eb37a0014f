# Fraud-detection pipeline: column handling, verified in Dafny

This project models the table-shaping core of a pandas/LightGBM fraud-detection
pipeline and proves properties of it:

- the email-domain helpers `get_email_region` and `get_email_site` (utils.py),
  which keep the last or first dot-separated piece of a domain and answer
  `"nan"` for a missing one;
- the dtype pass of `reduce_mem_usage` (utils.py): integer columns are cast to
  the narrowest of int8/int16/int32/int64 whose bounds strictly enclose the
  column's minimum and maximum, object columns become categoricals, and the
  caller's dataframe is rewritten column by column;
- `explode_categoricals` (utils.py) at the level of column lists: every object
  column is replaced by the indicator columns `pd.get_dummies` makes for it,
  appended after the existing columns;
- the inference script from the id split on (predict.py:42-59): drop duplicate
  column names keeping the first, drop every column the trained model does not
  know, report the features that are absent, select the features in the
  model's order and attach the scores as `isFraud`.

A table is a `Frames.Frame`: a row count and a sequence of named, typed columns
(integer, float, object, categorical, indicator). Missing cells of string
columns are `None`. `reduce_mem_usage` mutates its argument, so it is the
module-level method `MemoryReduction.ReduceMemUsage`, which takes a
`MemoryReduction.DataFrame` object and `modifies` it; `explode_categoricals` and the
script rebind local variables, so they are methods over values, each proved
equal to a recursive specification function whose properties are lemmas.

Modules: `Wrappers` (Option, Result), `Frames` (the table model and
name-based column lookup and dropping), `EmailDomains`, `MemoryReduction`,
`Categoricals`, `Predict`.

predict.py does not fill absent features: it prints their names (lines
51-53), and `x_test[features]` (line 55) raises KeyError when any is absent.
`Predict.SelectFeatures` fails with `KeyError` naming exactly the absent
features, in feature-list order.

A column name that occurs twice makes `data_df[col]` a dataframe, which has
no `.dtype`: both `reduce_mem_usage` (utils.py:22) and the first loop of
`explode_categoricals` (utils.py:75) raise AttributeError there. The model
returns that error, naming the column, and keeps whatever the pass had
already done to the caller's frame.

Two consequences of the code that the lemmas make precise:

- `get_email_region`/`get_email_site` turn a missing domain into the text
  `"nan"`. Inference explodes categoricals with `keep_na=True`
  (predict.py:28), so a derived email column with a missing domain yields two
  columns named `<prefix>_nan`: the indicator of the text and a NaN indicator
  that is never set. That is the duplicate the dedupe at predict.py:44 removes
  (`Predict.MissingDomainDuplicatesNan`).
- A real domain whose last piece is `nan` is indistinguishable from a missing
  one (`EmailDomains.SentinelIsAmbiguous`).

## Model

| member | source | states |
|---|---|---|
| EmailDomains.Split | utils.py:90 | `str.split(".")` gives one piece more than there are dots, and no piece contains a dot |
| EmailDomains.JoinSplit | utils.py:90 | splitting loses nothing: joining the pieces with dots gives back the input |
| EmailDomains.FirstPiece | utils.py:97 | the first piece of a split is a dot-free prefix that stops right before the first dot |
| EmailDomains.LastPiece | utils.py:90 | the last piece of a split is a dot-free suffix that starts right after the last dot |
| EmailDomains.EmailRegion | utils.py:86-90 | the region contains no dot and is a suffix of the domain's string form |
| EmailDomains.EmailSite | utils.py:93-97 | the site contains no dot and is a prefix of the domain's string form |
| EmailDomains.NanSentinel | utils.py:86-97 | when the string form of the entry is "nan" (a missing value or the text itself) both helpers return "nan" |
| EmailDomains.SentinelAgreesWithSplit | utils.py:86-97 | the sentinel branch returns what plain splitting would, so both helpers are the last/first piece of the entry's string form |
| EmailDomains.RegionIsLastPiece | utils.py:86-90 | the region contains no dot, is a suffix of the domain, and is preceded by a dot unless it is the whole domain |
| EmailDomains.SiteIsFirstPiece | utils.py:93-97 | the site contains no dot, is a prefix of the domain, and is followed by a dot unless it is the whole domain |
| EmailDomains.NoDotUnchanged | utils.py:86-97 | a domain without a dot is returned unchanged by both helpers |
| EmailDomains.OneDotRecombines | utils.py:86-97 | for a domain with exactly one dot, site + "." + region is the domain |
| EmailDomains.SentinelIsAmbiguous | utils.py:87-90 | for every d, the domain d + ".nan" gets the region "nan", the same as a missing domain |
| MemoryReduction.ChooseWidth | utils.py:28-36 | a width is chosen iff some width's bounds strictly enclose [min, max]; the chosen one does, and no narrower one does |
| MemoryReduction.SeqMin | utils.py:25 | `Series.min()` of a non-empty integer column is one of its values and at most every value |
| MemoryReduction.SeqMax | utils.py:26 | `Series.max()` of a non-empty integer column is one of its values and at least every value |
| MemoryReduction.ColumnWidth | utils.py:25-36 | when a column is cast, every value lies strictly inside the new width's bounds; an empty column is never cast |
| MemoryReduction.ReduceColumn | utils.py:24-45 | on its own a column fails exactly when it is categorical (TypeError naming it); an integer column is cast to `ColumnWidth`'s width or left unchanged when there is none, an object column becomes a categorical with the same cells, float and indicator columns stay; name and length are kept |
| MemoryReduction.Convert | utils.py:22-45 | the pass fails at column j exactly when the name is duplicated or the column is categorical; the error names the column and is AttributeError exactly for a duplicated name; a converted column keeps its name and length |
| MemoryReduction.FirstFailure | utils.py:21-45 | the position where the pass raises: every earlier column converts and that one does not; the column count when none raises |
| MemoryReduction.ReduceMemUsage | utils.py:21-45 | the caller's frame keeps its row and column count; columns before the first failing one are converted as `ReduceColumn` says, the rest are untouched, and the error is the one `Convert` raises there (AttributeError or TypeError) |
| MemoryReduction.DistinctStopsOnlyAtCategory | utils.py:22-26 | with distinct names each column converts exactly as on its own, so only a categorical stops the pass |
| MemoryReduction.DuplicateStops | utils.py:22 | a duplicated name makes the pass raise at that column or earlier |
| MemoryReduction.ReducePreservesShape | utils.py:21-45 | on a well-formed frame where nothing raises every column converts and keeps the frame's row count |
| MemoryReduction.NarrowingIsLossless | utils.py:29-36 | a cast integer column keeps its values, and every value is representable in the new width |
| MemoryReduction.CastIsNarrowest | utils.py:29-36 | every width narrower than the one cast to has a value of the column on or outside its bounds |
| MemoryReduction.Int8BoundsAreStrict | utils.py:29-32 | a column within [-128, 127] that reaches -128 or 127 goes to int16, not int8 |
| MemoryReduction.NoWidthAtInt64Limits | utils.py:35-36 | no cast happens exactly when the column is empty or reaches the int64 minimum or maximum |
| Categoricals.Insert | utils.py:80 | adding a category to the list of categories adds exactly that one |
| Categoricals.InsertSorted | utils.py:80 | adding a category keeps the list in Python string order without repeats |
| Categoricals.Levels | utils.py:80 | the categories are exactly the distinct non-missing values of the column |
| Categoricals.LevelsSorted | utils.py:80 | the categories are listed in Python string order, each once |
| Categoricals.Dummies | utils.py:80 | every dummy is an indicator of the column's length whose name starts with `prefix_` |
| Categoricals.DummiesFaithful | utils.py:80 | the k-th dummy is the indicator `prefix_v` of the k-th category in sorted order, every distinct value has one, and with keep_na the NaN indicator `prefix_nan` comes last |
| Categoricals.NanTextCollides | utils.py:80 | with `dummy_na` a column holding the text "nan" gets two dummies named `prefix_nan` |
| Categoricals.ObjectNamesMembers | utils.py:73-76 | the first loop collects exactly the names of object columns |
| Categoricals.ObjectNamesDistinct | utils.py:73-76 | with distinct column names, no name is collected twice |
| Categoricals.ObjectNameIffObject | utils.py:73-76 | with distinct column names, a column's name is collected iff the column is an object column |
| Categoricals.GetDummies | utils.py:80 | `get_dummies(data_df[c], prefix=c)` gives indicator columns named `c_...`, as long as the column found |
| Categoricals.Step | utils.py:80-81 | one pass keeps the row count and leaves exactly the old columns and the new dummies not named c |
| Categoricals.CollectStringColumns | utils.py:73-76 | the first loop returns the object column names in column order, or AttributeError at the first duplicated name |
| Categoricals.AddDummies | utils.py:79-81 | the second loop computes its specification `ExplodeEach` |
| Categoricals.ExplodeCategoricals | utils.py:60-83 | both loops compute the specification `Explode`: AttributeError at the first duplicated name, else the object names collected in column order, each in turn exploded into its dummies and dropped |
| Categoricals.ExplodeOutcome | utils.py:73-83 | the function raises exactly when some name occurs twice, naming such a name, and otherwise returns `Exploded` |
| Categoricals.ExplodeEachShape | utils.py:79-81 | after handling the first m object columns, the unhandled original columns come first in order and everything after them is an indicator column of the frame's height prefixed by a handled name |
| Categoricals.ExplodeShape | utils.py:60-83 | the result keeps the row count, is well formed, starts with the non-object columns unchanged and in order, continues with dummies only, and holds no object column |
| Predict.RegionColumn | predict.py:22 | applying `get_email_region` keeps the column's length |
| Predict.SiteColumn | predict.py:23 | applying `get_email_site` keeps the column's length |
| Predict.MissingDomainDuplicatesNan | predict.py:22-28 | a missing domain makes the exploded region column carry two `prefix_nan` columns, the last one never set |
| Predict.MissingDomainDuplicatesNanSite | predict.py:23-28 | the same for the site column |
| Predict.KeepNaAddsOneColumn | predict.py:28 | exploding with `keep_na=True` gives the names of `keep_na=False` plus `prefix_nan` at the end |
| Predict.SplitIds | predict.py:42-43 | fails with KeyError iff there is no TransactionID column; otherwise both frames keep the row count, the ids frame holds exactly the TransactionID columns, and the feature frame is the input with those columns dropped |
| Predict.KeepFirstNames | predict.py:44 | the dedupe keeps exactly the set of names |
| Predict.KeepFirstDistinct | predict.py:44 | after the dedupe no name occurs twice |
| Predict.KeepFirstFirsts | predict.py:44 | every kept column is the first column carrying its name |
| Predict.KeepFirstOrder | predict.py:44 | kept columns appear in the order of their names' first occurrence |
| Predict.KeepFirstCorrect | predict.py:44 | the four dedupe properties together |
| Predict.DedupeColumns | predict.py:44 | the loop with a seen-set computes the dedupe specification `KeepFirst` and keeps the row count |
| Predict.DropStep | predict.py:47-49 | one pass leaves a raised error alone; `drop` raises KeyError iff the name is not a feature and no column carries it; otherwise the row count is kept and a column survives iff its name differs or is a feature |
| Predict.KeepFirstWellFormed | predict.py:44 | the dedupe keeps a well-formed frame well formed |
| Predict.KeepFirst | predict.py:44 | the dedupe never adds a column |
| Predict.DropUnneeded | predict.py:46-49 | the drop loop over the column index computes its specification `DropEach` |
| Predict.DropFailureSticks | predict.py:47-49 | once a `drop` has raised, the rest of the loop does not change the outcome |
| Predict.Listed | predict.py:47-49 | the surviving columns are exactly those whose name is a feature |
| Predict.DropKeepsListed | predict.py:47-49 | with distinct names, after i passes the frame is the surviving columns among the first i followed by the unvisited ones |
| Predict.DropLoopCorrect | predict.py:46-49 | with distinct names the drop loop never raises and leaves exactly the feature columns, in their order |
| Predict.ListedNames | predict.py:46-49 | a name survives the drop loop iff it is a feature and was a column |
| Predict.ListedDistinct | predict.py:46-49 | dropping keeps names distinct |
| Predict.ListedWellFormed | predict.py:46-49 | dropping keeps a well-formed frame well formed |
| Predict.ReconciledCorrect | predict.py:44-49 | after dedupe and drop the matrix keeps the row count, has distinct names, and holds a name iff it is a feature that was a column |
| Predict.MissingFeatures | predict.py:51-53 | the reported names are exactly the features that are not columns |
| Predict.ReportMissing | predict.py:51-53 | the reporting loop returns `MissingFeatures` in feature-list order and changes nothing |
| Predict.SelectFeatures | predict.py:55 | succeeds iff every feature is a column; then the names equal the feature list and each column is the first of its name; otherwise KeyError names the absent features |
| Predict.SelectWellFormed | predict.py:55 | a selection from a well-formed frame is well formed |
| Predict.AddTarget | predict.py:57-58 | fails iff the score count differs from the row count; otherwise the id columns are kept unchanged and followed by isFraud holding the scores |
| Predict.RunPrediction | predict.py:42-58 | the script's statements compute the specification `PredictSpec`: missing report and submission |
| Predict.SubmissionShape | predict.py:42-59 | with one TransactionID column, a submission has the test row count and exactly the columns TransactionID, isFraud; reported missing features make it fail with KeyError naming them; with none missing only a wrong-length score can fail |
| Frames.Without | predict.py:49 | `drop(name, axis=1)` keeps exactly the columns with another name |
| Frames.Named | predict.py:42 | `df[[name]]` holds exactly the columns with that name |
| Frames.FirstDuplicate | utils.py:75 | the first position whose name occurs more than once, every earlier name occurring once; the column count when none does |
| Frames.DistinctIffNoDuplicate | utils.py:75 | the names are distinct exactly when no position's name is duplicated |
| Frames.CountOthers | utils.py:75 | a name counts more than once exactly when another position carries it |
| Frames.FirstNamed | utils.py:80 | looking up a name finds a column of that name iff there is one |

## Left out

- The float branch of `reduce_mem_usage` (utils.py:37-43): floating-point ranges are not modelled.
- MemoryReduction.ReduceColumn: keeps float columns unchanged, where the source casts them to float16, float32 or float64.
- MemoryReduction.ReduceMemUsage: every categorical is taken to be unordered, so `.min()` raises on it; ordered categoricals are not modelled.
- The memory accounting, the printed messages and the `sparse` conversion to `csr_matrix` (utils.py:17-19, 47-57): output and library internals.
- `match_features` (predict.py:44) is not defined in utils.py and is modelled as the identity.
- Command-line arguments, `read_csv`, `pickle.load`, `to_csv` and the printed progress messages: I/O. The printed "Missing:" lines are the returned list.
- The model's feature list (`booster_.feature_name()`) is the parameter `features`, and `predict_proba(...)[:, 1]` is the parameter `score`.
- The right merge of identity and transaction data (predict.py:31) and the row-count asserts against 506691 (predict.py:32, 59): the model starts from the merged frame and keeps its row count.
- predict.py:16-28 is not composed into one step: the derived email columns are modelled cell by cell (`Predict.RegionColumn`, `Predict.SiteColumn`) and the explode as `Categoricals.ExplodeCategoricals`, but the drop of the two raw email-domain columns and the sequence of both explodes are not; the script model starts from the merged frame.
- prepare.py and train.py: file handling, the inner merge and model fitting.
- The dtype and numeric values of `get_dummies` indicators: modelled as boolean flags.
- Categoricals.ExplodeShape: states that the appended columns are dummies of exploded columns, not that they are exactly the concatenation of each column's dummies, because a later drop of an object column whose name equals an earlier dummy's name removes that dummy too.
- Categoricals.GetDummies: when an earlier dummy carries the name of a later object column, `data_df[c]` is a two-column frame; the model reads only the first column of that name, the original object column, and the drop of `c` then removes every column so named.
- Predict.AddTarget: the in-place assignment to `submission_df` is modelled as building a new frame; the ids frame is a fresh selection, so no other frame sees the change.
