# NBA player performance forecasting — a Dafny model

This project models the data path of an NBA per-player forecasting
pipeline. The path has five parts:

- **Scraping.** Per-game tables are scraped for each season. Traded
  players' rows are consolidated into one row per (Player, Season). The
  "League Average" rows are removed.
- **Processing.** The stored rows are cleaned: Pos is filled with the mode,
  missing stats become 0, and Age is filled with the median. Each row gets
  an Age_Category from the bins [0,20), [20,25), [25,31), [31,35), [35,40).
  League averages are grouped by (Pos, Age). The training window of up to 3
  seasons per player is annotated with its `pl_avg_*` averages.
- **Training set.** The annotated rows are sorted by (Player, Season). Seven
  numeric features and two categorical features are selected. The
  categorical features are one-hot encoded with `drop_first`. The five
  targets are PTS, AST, TRB, STL and BLK. The evaluation metric is the
  per-column MSE as a percentage of the mean non-zero truth, then `nanmean`.
- **Prediction.** For a requested season, the players of the previous season
  form the query. The query is cleaned and left-merged with each player's
  window of up to 3 seasons before the requested one. It is aggregated per
  player, encoded the same way, and passed through the five per-target
  models. Each output row holds Player, Season, Age, Pos and five forecasts.
- **Predictions page.** The page offers a season selector and filters by
  position, age and name. It sorts by a clickable column, toggles the sort
  direction, and builds the position and age option lists.

The model is a set of pure functions on immutable datatypes. pandas frames
become sequences of records. NaN becomes `Option.None`. Fallible steps
return a `Result` whose error says which pandas or Python failure the code
would hit.

The model follows the code where the code departs from its documented
intent:

- **Age outside the bins.** An age outside [0, 40) gets no category (NaN).
  The code raises no error for it.
- **Training window seasons.** `data_processing.get_recent_seasons` sorts by
  descending season and then takes `tail(n)`. So it keeps each player's
  *oldest* n seasons, not the most recent ones.
- **Training window self-inclusion.** Each kept row carries the average of
  its own window, so a row's features include itself.
- **Pos mode ties.** `mode()[0]` breaks ties by taking the smallest value in
  string order, not the first value encountered.
- **Categories the training set never saw.** Such a value gets no error. It
  silently changes the column layout of the encoded matrix. A value that is
  absent, or is the smallest (dropped) one, encodes as all zeros.
- **Prediction aggregation.** The aggregation dictionary gives Season and Age
  `'first'`, but the comprehension that follows overrides both with
  `'mean'`.
- **Missing model.** A missing model file ends the run with `exit(1)`. The
  model returns an error for it instead, and checks for it only after the
  batch has been built.

Modules, one per file:

| Module | Role |
|---|---|
| `Wrappers` | `Option` and `Result` |
| `Lex` | code-point string order |
| `Seqs` | stable insertion sort, dedup, filter, sorted group keys |
| `Numbers` | sums, means, truncation |
| `Records` | row types and column constants |
| `Imputation` | mode, median and NaN-skipping mean |
| `DataProcessing` | `clean_data`, `get_age_cat`, `get_new_player_init` |
| `LeagueAverages` | `calculate_league_averages` |
| `TrainingWindow` | `data_processing.get_recent_seasons` |
| `InferenceWindow` | `predictions.get_recent_seasons` |
| `Encoding` | `get_dummies(drop_first=True).astype(int)` |
| `Predictions` | `load_predictions` |
| `PredictionModel` | training-set assembly and `evaluate_model` |
| `DataScraping` | `get_position`, consolidation, League Average removal |
| `PredictionsPage` | the predictions page logic |

## Model

| member | source | states |
|---|---|---|
| Imputation.Mode | backend/player_performance_predictor/build_model/data_processing.py:18 | the fill value is a most frequent Pos and, among equally frequent values, the least in string order (`mode()` returns its modes sorted and `[0]` takes the first) |
| Imputation.ModeUnique | backend/player_performance_predictor/build_model/data_processing.py:18 | at most one value satisfies the mode characterisation, so the fill value is determined by the column's contents |
| Imputation.ModeOrderIndependent | backend/player_performance_predictor/build_model/predictions.py:16 | reordering the rows does not change the Pos fill value |
| Imputation.KthSmallest | backend/player_performance_predictor/build_model/data_processing.py:24 | the value of rank k is a present age with at most k ages strictly below it and more than k at or below it |
| Imputation.RankUnique | backend/player_performance_predictor/build_model/data_processing.py:24 | only one value can hold a given rank, so the rank conditions determine it |
| Imputation.MedianRanks | backend/player_performance_predictor/build_model/data_processing.py:24 | the median is the value of rank n/2 for an odd count n and the mean of the values of ranks n/2 - 1 and n/2 for an even count (ages 24 and 27 give 25.5) |
| Imputation.MedianOrderIndependent | backend/player_performance_predictor/build_model/predictions.py:18 | reordering the rows does not change the median age |
| Imputation.MeanPresent | backend/player_performance_predictor/build_model/data_scraping.py:34 | a pandas `mean` that skips NaN is NaN exactly when every cell is NaN |
| Imputation.MeanPresentBounds | backend/player_performance_predictor/build_model/data_scraping.py:34-47 | the mean of present values lying in [lo, hi] lies in [lo, hi] |
| Imputation.MeanPresentConst | backend/player_performance_predictor/build_model/predictions.py:95 | the mean of cells that all hold c is c |
| DataProcessing.CleanData | backend/player_performance_predictor/build_model/data_processing.py:17-32 | fails with NoPositionMode exactly when no row has a Pos, with MissingGames exactly when some Pos exists and some G is missing (int64 cast of NaN), with NoAgeMedian exactly when G is complete and no Age exists; otherwise keeps every row's identity and G, fills a missing Pos with the batch mode, keeps present stats, zeroes missing ones and truncates Age |
| DataProcessing.CleanDataFillsAgeWithMedian | backend/player_performance_predictor/build_model/data_processing.py:24-27 | a row with a missing Age receives the truncated median of the present ages |
| DataProcessing.Cut | backend/player_performance_predictor/build_model/data_processing.py:38 | `pd.cut(..., right=False)`: a value gets a label exactly when it lies in [first bin, last bin), and then the label of the half-open bin containing it |
| DataProcessing.AgeCategory | backend/player_performance_predictor/build_model/data_processing.py:35-38 | Premature iff 0 <= age < 20, Young iff 20 <= age < 25, Prime iff 25 <= age < 31, Veteran iff 31 <= age < 35, Old iff 35 <= age < 40, no category otherwise |
| DataProcessing.AgeCategoryBoundaries | backend/player_performance_predictor/build_model/data_processing.py:36-37 | the bin edges: 19 Premature, 20 Young, 25 Prime, 31 Veteran, 35 and 39 Old, 40 and -1 none |
| DataProcessing.GetAgeCat | backend/player_performance_predictor/build_model/data_processing.py:35-39 | every row is kept with all its fields and gains the category of its age |
| DataProcessing.NewPlayerInit | backend/player_performance_predictor/build_model/data_processing.py:75-96 | one row with the given name, age, position and season, no G and all thirteen stats 0 |
| DataProcessing.NewPlayerRowFailsCleaning | backend/player_performance_predictor/build_model/data_processing.py:75-96 | appending a new-player row to any frame makes cleaning fail on the missing G |
| LeagueAverages.GroupAverages | backend/player_performance_predictor/build_model/data_processing.py:63-67 | a (Pos, Age) key's row carries that key and the column means of exactly the rows having it |
| LeagueAverages.CalculateLeagueAverages | backend/player_performance_predictor/build_model/data_processing.py:57-72 | one row per distinct (Pos, Age) present, no other keys, each holding the means of its group |
| LeagueAverages.LeagueAveragesSorted | backend/player_performance_predictor/build_model/data_processing.py:63 | the rows come in ascending (Pos, Age) order, as `groupby` sorts its keys |
| TrainingWindow.Players | backend/player_performance_predictor/build_model/data_processing.py:103-104 | the groups are the distinct players of the frame, each once |
| TrainingWindow.PlayersSorted | backend/player_performance_predictor/build_model/data_processing.py:103 | the groups are visited in ascending player order |
| TrainingWindow.OldestSeasons | backend/player_performance_predictor/build_model/data_processing.py:106-120 | a descending sort followed by `tail(n)` keeps min(n, k) of a player's k rows, and every row left out is at least as recent as every row kept |
| TrainingWindow.Annotate | backend/player_performance_predictor/build_model/data_processing.py:122-131 | every kept row is output once with the averages of its whole window attached |
| TrainingWindow.BlocksCount | backend/player_performance_predictor/build_model/data_processing.py:104-129 | each listed player contributes exactly min(n, its row count) rows and any other player none |
| TrainingWindow.BlocksOfPlayer | backend/player_performance_predictor/build_model/data_processing.py:103-122 | selecting one player's rows of the concatenated groups gives exactly that player's annotated window when the player is a group key, and nothing otherwise |
| TrainingWindow.GetRecentSeasonsSpec | backend/player_performance_predictor/build_model/data_processing.py:99-133 | fails exactly on an empty frame (`concat` of nothing); otherwise the rows of each player p are exactly p's window of min(n, k) oldest seasons, in window order, each with that window's averages, and players appear in ascending blocks |
| TrainingWindow.GetRecentSeasonsFromWindow | backend/player_performance_predictor/build_model/data_processing.py:117-131 | every output row is one of its player's window rows and carries that window's averages |
| InferenceWindow.Eligible | backend/player_performance_predictor/build_model/predictions.py:36 | a row is eligible exactly when it is in the frame and its season precedes the target |
| InferenceWindow.RecentSeasons | backend/player_performance_predictor/build_model/predictions.py:42-44 | a descending sort followed by `head(n)` keeps min(n, k) rows, and every row left out is at most as recent as every row kept |
| InferenceWindow.RecentSeasonsLatestFirst | backend/player_performance_predictor/build_model/predictions.py:42-50 | the first kept row, whose Age_Category is copied, has the latest season of the group |
| InferenceWindow.WindowNonEmpty | backend/player_performance_predictor/build_model/predictions.py:41-44 | a player with an eligible row and n > 0 has a non-empty window |
| InferenceWindow.GetRecentSeasons | backend/player_performance_predictor/build_model/predictions.py:35-59 | fails with NothingToConcatenate exactly when no row precedes the target, with EmptyWindow exactly when n = 0 and some row does (`iloc[0]` of an empty head); otherwise one summary per eligible player, in group order |
| InferenceWindow.SummaryPlayersExact | backend/player_performance_predictor/build_model/predictions.py:36-41 | a player is summarised exactly when it has a row before the target season |
| InferenceWindow.SummaryOfSummarizes | backend/player_performance_predictor/build_model/predictions.py:44-53 | a summary averages Season, Age and the numeric columns over exactly the min(n, k) most recent eligible rows and takes Age_Category from a latest one |
| InferenceWindow.GetRecentSeasonsSpec | backend/player_performance_predictor/build_model/predictions.py:35-59 | on success the summarised players are exactly those with a row before the target, strictly ascending, each summary describing its window |
| Encoding.CategoryValues | backend/player_performance_predictor/build_model/predictions.py:105 | a value is listed exactly when some row holds it in that column |
| Encoding.Kept | backend/player_performance_predictor/build_model/predictions.py:105 | the indicator values are distinct, ascending, and exactly the present values other than the smallest (`drop_first`) |
| Encoding.IndicatorHeader | backend/player_performance_predictor/build_model/predictions.py:105 | column (j, v) is in the header exactly when v is a kept value of categorical column j |
| Encoding.Encode | backend/player_performance_predictor/build_model/predictions.py:105 | fails exactly when a numeric cell is NaN (int cast); otherwise one encoded row per input row, the header of numeric columns followed by kept indicators, each cell the truncated number or the 0/1 indicator |
| Encoding.LayoutDeterminedByKeptValues | backend/player_performance_predictor/build_model/prediction_model.py:65 | two frames whose categorical columns keep the same values get the same indicator layout |
| Encoding.SameValuesSameHeader | backend/player_performance_predictor/build_model/prediction_model.py:65 | frames with the same categorical values get the same encoded header |
| Encoding.UnseenValueChangesHeader | backend/player_performance_predictor/build_model/predictions.py:105 | a kept value absent from the training frame creates a column training lacks, so the headers differ |
| Encoding.DroppedValueEncodesAsZeros | backend/player_performance_predictor/build_model/predictions.py:105 | a row whose category is NaN or the dropped first value has 0 in every indicator of that column |
| Predictions.CleanQuery | backend/player_performance_predictor/build_model/predictions.py:15-20 | fails exactly when no query row has a Pos; otherwise keeps identity and present values, fills a missing Pos with the batch mode and a missing Age with the batch median, leaving it missing when no age exists |
| Predictions.CleanQueryKeepsComplete | backend/player_performance_predictor/build_model/predictions.py:15-20 | a non-empty query with every Pos and Age present is unchanged by cleaning |
| Predictions.PreviousSeason | backend/player_performance_predictor/build_model/predictions.py:68 | the selected rows are exactly those of season req - 1 |
| Predictions.QueryRows | backend/player_performance_predictor/build_model/predictions.py:68-75 | one query row per season req - 1 row, with Season req, Age + 1 and the same Pos; empty exactly when there is no such row |
| Predictions.QueryRowsComplete | backend/player_performance_predictor/build_model/predictions.py:70-75 | every query row has Pos and Age present |
| Predictions.Lookup | backend/player_performance_predictor/build_model/predictions.py:80 | the matched summary belongs to the player, and none is found exactly when the window has no summary for that player |
| Predictions.LeftMerge | backend/player_performance_predictor/build_model/predictions.py:80 | a left merge keeps every query row in order and attaches the player's summary when one exists |
| Predictions.MergeOk | backend/player_performance_predictor/build_model/predictions.py:68-80 | with a season req - 1 row, cleaning and the window both succeed and the merge is the left merge of the query rows |
| Predictions.MergeSpec | backend/player_performance_predictor/build_model/predictions.py:68-80 | the merge succeeds exactly when season req - 1 has a row and otherwise fails in cleaning (`mode()[0]` of an empty frame); every merged row comes from a previous-season row and found its player's summary |
| Predictions.MergedPlayers | backend/player_performance_predictor/build_model/predictions.py:91 | the group keys are the distinct merged players, each once |
| Predictions.MergedPlayersSorted | backend/player_performance_predictor/build_model/predictions.py:91-99 | the aggregated rows come in ascending player order |
| Predictions.FirstPresent | backend/player_performance_predictor/build_model/predictions.py:96-97 | `'first'` yields the earliest non-NaN cell, NaN exactly when all cells are NaN |
| Predictions.AggregateMatched | backend/player_performance_predictor/build_model/predictions.py:91-99 | for a group of matched rows, the mean Season is the requested season, the mean Age is present, each `pl_avg_*` feature is the summary's average and Age_Category the summary's category |
| Predictions.AggregateAgeBounds | backend/player_performance_predictor/build_model/predictions.py:95 | the aggregated Age lies within the bounds of the group's ages |
| Predictions.AggregatePosition | backend/player_performance_predictor/build_model/predictions.py:97 | the aggregated Pos is one of the group's positions |
| Predictions.Features | backend/player_performance_predictor/build_model/predictions.py:89-99 | one feature row per player key, each the aggregation of exactly that player's merged rows |
| Predictions.FeaturesFinite | backend/player_performance_predictor/build_model/predictions.py:91-105 | after a successful merge no numeric feature is NaN, so the int cast cannot fail |
| Predictions.PrepareBatch | backend/player_performance_predictor/build_model/predictions.py:77-105 | a built batch has one feature row and one encoded row per player, with Season and Age present |
| Predictions.PrepareBatchSpec | backend/player_performance_predictor/build_model/predictions.py:68-105 | the batch is built exactly when season req - 1 has a row, and otherwise fails in cleaning because no position has a mode |
| Predictions.BatchEncoded | backend/player_performance_predictor/build_model/predictions.py:103-105 | the batch matrix is the encoding of its feature rows |
| Predictions.BatchPlayersExact | backend/player_performance_predictor/build_model/predictions.py:68-99 | a player is in the batch exactly when it has a season req - 1 row |
| Predictions.BatchRowSeason | backend/player_performance_predictor/build_model/predictions.py:70-95 | every batch row's Season feature is the requested season |
| Predictions.BatchRowWindow | backend/player_performance_predictor/build_model/predictions.py:78-98 | every batch row's `pl_avg_*` features and Age_Category are those of its player's window summary |
| Predictions.BatchRowPosition | backend/player_performance_predictor/build_model/predictions.py:74-97 | every batch row's Pos is the Pos of one of its player's season req - 1 rows |
| Predictions.BatchRowAge | backend/player_performance_predictor/build_model/predictions.py:73-95 | when the player's previous-season ages lie in [lo, hi], the Age feature lies in [lo + 1, hi + 1] |
| Predictions.FirstMissing | backend/player_performance_predictor/build_model/predictions.py:107-114 | the reported target is the first in target order without a model, and none is reported exactly when every model exists |
| Predictions.FirstMissingModelReported | backend/player_performance_predictor/build_model/predictions.py:107-114 | with a previous season present, the first missing model in target order is the failure reported |
| Predictions.LoadPredictionsOutcome | backend/player_performance_predictor/build_model/predictions.py:62-132 | predictions are produced exactly when season req - 1 has a row and every model exists; without that season the failure is the cleaning one |
| Predictions.ComposeAll | backend/player_performance_predictor/build_model/predictions.py:116-128 | one output row per batch player, in batch order, each composed from that player's features and encoded row |
| Predictions.ComposeAllPlayers | backend/player_performance_predictor/build_model/predictions.py:123 | the output's players are the batch players in order |
| Predictions.OutputRow | backend/player_performance_predictor/build_model/predictions.py:116-128 | the k-th output row is composed from the k-th batch player, its features and its encoded row |
| Predictions.LoadPredictionsComposed | backend/player_performance_predictor/build_model/predictions.py:116-128 | a successful run returns the composition of the prepared batch |
| Predictions.PredictionPlayersOfBatch | backend/player_performance_predictor/build_model/predictions.py:101-123 | the output's players are the merged players in group order |
| Predictions.PredictionPlayersExact | backend/player_performance_predictor/build_model/predictions.py:68-125 | the output names exactly the players with a season req - 1 row, each once, in strictly ascending order |
| Predictions.PredictionRow | backend/player_performance_predictor/build_model/predictions.py:118-128 | each output row has Season req and the five model outputs, in target order, on that player's encoded row |
| Predictions.PredictedAge | backend/player_performance_predictor/build_model/predictions.py:73-127 | when the player's previous-season ages lie in [lo, hi], the output Age lies in [lo + 1, hi + 1] |
| Predictions.PredictedPosition | backend/player_performance_predictor/build_model/predictions.py:74-126 | the output Pos is the Pos of one of the player's season req - 1 rows |
| PredictionModel.PlayerSeasonPreorder | backend/player_performance_predictor/build_model/prediction_model.py:51 | ordering by (Player, Season) is a total preorder, so the sort is well defined |
| PredictionModel.TrainingFeatures | backend/player_performance_predictor/build_model/prediction_model.py:53-62 | a training row has the seven numeric features, all present, and the two categorical features |
| PredictionModel.TrainingTargets | backend/player_performance_predictor/build_model/prediction_model.py:60-63 | one target value per target statistic |
| PredictionModel.BuildTrainingSetOutcome | backend/player_performance_predictor/build_model/prediction_model.py:49-65 | assembly fails exactly on an empty frame, with the window's error; otherwise features, targets and matrix rows match the rows one to one |
| PredictionModel.TrainingRowsOrdered | backend/player_performance_predictor/build_model/prediction_model.py:49-51 | the training rows are a permutation of the window rows sorted by (Player, Season) |
| PredictionModel.TrainingRowColumns | backend/player_performance_predictor/build_model/prediction_model.py:53-63 | row i's features are its Season, Age, the window averages of the five targets, its category label and Pos, and its targets are its own five stats |
| PredictionModel.TrainingRowFromWindow | backend/player_performance_predictor/build_model/prediction_model.py:49-51 | after sorting, every training row still comes from its player's window with that window's averages |
| PredictionModel.TrainingEncoded | backend/player_performance_predictor/build_model/prediction_model.py:65 | the training matrix is the encoding of the training features |
| PredictionModel.BuildTrainingSetAssembles | backend/player_performance_predictor/build_model/prediction_model.py:49-65 | a built training set is the assembly of the sorted window |
| PredictionModel.NumericColumnsFirst | backend/player_performance_predictor/build_model/prediction_model.py:53-65 | the seven numeric columns lead every encoded header, in their fixed order |
| PredictionModel.TrainingMatchesPrediction | backend/player_performance_predictor/build_model/prediction_model.py:62-65 | when training and prediction see the same category values, the two matrices have identical columns |
| PredictionModel.PredictionColumnUnseen | backend/player_performance_predictor/build_model/prediction_model.py:62-65 | a kept prediction category absent from training makes the two matrices' columns differ |
| PredictionModel.NonZeroRows | backend/player_performance_predictor/build_model/prediction_model.py:27-29 | every row whose truth is not 0 is kept with its prediction and no other row is; the kept truths are the non-zero truths in row order, so there are as many pairs as non-zero truths, and none exactly when every truth is 0 |
| PredictionModel.SquaredErrors | backend/player_performance_predictor/build_model/prediction_model.py:29 | one squared difference per masked pair |
| PredictionModel.Percent | backend/player_performance_predictor/build_model/prediction_model.py:29-34 | NaN exactly when there are no masked pairs or their truths average to 0; otherwise the percentage times the mean truth is 100 times the mean squared error |
| PredictionModel.ColumnPercent | backend/player_performance_predictor/build_model/prediction_model.py:26-36 | an all-zero truth column gives NaN |
| PredictionModel.ColumnPercents | backend/player_performance_predictor/build_model/prediction_model.py:25-36 | one percentage per target column |
| PredictionModel.MsePercent | backend/player_performance_predictor/build_model/prediction_model.py:38 | `nanmean` is NaN exactly when every column's percentage is NaN |
| PredictionModel.PercentNonNegative | backend/player_performance_predictor/build_model/prediction_model.py:29-32 | positive truths give a defined, non-negative percentage |
| PredictionModel.ColumnPercentNonNegative | backend/player_performance_predictor/build_model/prediction_model.py:27-32 | a non-negative truth column with a positive entry gives a defined, non-negative percentage |
| PredictionModel.PercentPerfect | backend/player_performance_predictor/build_model/prediction_model.py:29-34 | exact predictions give 0 or NaN |
| PredictionModel.ColumnPercentPerfect | backend/player_performance_predictor/build_model/prediction_model.py:26-36 | a column predicted exactly gives 0 or NaN |
| PredictionModel.MsePercentPerfect | backend/player_performance_predictor/build_model/prediction_model.py:21-38 | exact predictions give an overall percentage of 0 or NaN |
| PredictionModel.ZeroColumnSkipped | backend/player_performance_predictor/build_model/prediction_model.py:26-38 | an all-zero truth column is NaN and `nanmean` equals the mean over the other columns |
| DataScraping.MaxGames | backend/player_performance_predictor/build_model/data_scraping.py:6 | NaN exactly when every G is NaN; otherwise a G that occurs and bounds every present G |
| DataScraping.FirstPosWithGamesAt | backend/player_performance_predictor/build_model/data_scraping.py:7-8 | the position chosen for g is that of the first row with exactly g games |
| DataScraping.GetPositionSpec | backend/player_performance_predictor/build_model/data_scraping.py:5-8 | None when every G is NaN; otherwise the Pos of the first row with the most games, and such a row exists |
| DataScraping.Tag | backend/player_performance_predictor/build_model/data_scraping.py:25 | the tagged rows are exactly the table's rows with the page's season |
| DataScraping.Stack | backend/player_performance_predictor/build_model/data_scraping.py:14-28 | the stacked rows are exactly the rows of the pages that returned a table, each with its page's season |
| DataScraping.Keys | backend/player_performance_predictor/build_model/data_scraping.py:32 | the group keys are the distinct (Player, Season) pairs of the rows |
| DataScraping.Group | backend/player_performance_predictor/build_model/data_scraping.py:32 | a group holds exactly the rows with its key |
| DataScraping.Consolidated | backend/player_performance_predictor/build_model/data_scraping.py:32-50 | the consolidated row carries its key's Player and Season and all thirteen stats |
| DataScraping.Consolidate | backend/player_performance_predictor/build_model/data_scraping.py:32-50 | one output row per key, in key order, each consolidated from exactly that key's rows |
| DataScraping.ConsolidateKeys | backend/player_performance_predictor/build_model/data_scraping.py:32-48 | the output keys are distinct, are exactly the input keys, and ascend by (Player, Season) |
| DataScraping.ConsolidateRow | backend/player_performance_predictor/build_model/data_scraping.py:32-50 | every output row has a non-empty group and is the consolidation of that group |
| DataScraping.SingleGames | backend/player_performance_predictor/build_model/data_scraping.py:33 | a one-row group's summed G is its G, or 0 when NaN |
| DataScraping.SingleMean | backend/player_performance_predictor/build_model/data_scraping.py:34-47 | the NaN-skipping mean of one cell is that cell |
| DataScraping.SinglePosition | backend/player_performance_predictor/build_model/data_scraping.py:5-8 | a one-row group's position is its Pos when G is present, otherwise None |
| DataScraping.ConsolidateSingleRow | backend/player_performance_predictor/build_model/data_scraping.py:32-50 | a player with one row in a season keeps its Age, stats and (when G is present) Pos, with G summed to itself |
| DataScraping.DropLeagueAverage | backend/player_performance_predictor/build_model/data_scraping.py:59 | exactly the rows not named "League Average" remain |
| DataScraping.PlayerStatsSpec | backend/player_performance_predictor/build_model/data_scraping.py:11-59 | fails exactly when no season returned a table (`concat` of nothing); otherwise no "League Average" row remains and every other consolidated row does |
| PredictionsPage.Seasons | frontend/app/predictions/page.js:31 | the selector has twelve entries |
| PredictionsPage.SeasonsSpec | frontend/app/predictions/page.js:31 | the selector lists exactly the years 2014 to 2025, ascending; 2026 is not offered |
| PredictionsPage.LowerStr | frontend/app/predictions/page.js:64 | lower-casing keeps the length and maps each character |
| PredictionsPage.Includes | frontend/app/predictions/page.js:64 | `includes` holds exactly when the needle occurs at some offset of the text |
| PredictionsPage.ApplyFiltersSpec | frontend/app/predictions/page.js:53-66 | the chained filters keep exactly the rows that pass every active filter, in order; with no filter set the list is unchanged |
| PredictionsPage.SortPredictions | frontend/app/predictions/page.js:74-81 | sorting a copy is a permutation of the data |
| PredictionsPage.PrecedesPreorder | frontend/app/predictions/page.js:75-80 | for a consistent `localeCompare`, the comparator orders rows by a total preorder in either direction |
| PredictionsPage.SortPredictionsOrdered | frontend/app/predictions/page.js:74-81 | the sorted rows are a permutation in which the comparator never puts a later row first; numeric columns ascend for 'asc' and descend for 'desc' |
| PredictionsPage.ShownRows | frontend/app/predictions/page.js:52-72 | the shown list holds exactly the fetched rows passing every active filter, each as often as fetched; with no filter it holds all of them |
| PredictionsPage.HandleSort | frontend/app/predictions/page.js:83-87 | the clicked column becomes the sort column |
| PredictionsPage.HandleSortSpec | frontend/app/predictions/page.js:83-87 | clicking the active ascending column makes it descending; any other click sorts ascending by the clicked column |
| PredictionsPage.HandleSortToggles | frontend/app/predictions/page.js:83-87 | clicking the active column flips the direction and two such clicks restore the state |
| PredictionsPage.UniquePositionsSpec | frontend/app/predictions/page.js:89 | the position options are the fetched positions, each once, in order of first appearance |
| PredictionsPage.UniqueAgesSpec | frontend/app/predictions/page.js:90 | the age options are the fetched ages, each once, strictly ascending |

## Left out

- MongoDB reads and writes, CSV files and the HTTP scraping requests are I/O and are not modelled. A season whose request fails is a page with no table.
- The Django API views are not part of this model.
- The React state, effects, `fetch` and rendering are not part of this model. The page logic is modelled as functions of the fetched rows and of the control values.
- LightGBM training, `train_test_split` and its randomness, and `joblib` loading are not modelled. Model existence is the parameter `available` and model output is the parameter `predict`. LightGBM's own feature-count check is not modelled.
- PredictionModel.MsePercent: models only the percentage term of `evaluate_model`. `mean_squared_error` over the whole matrix and `r2_score` are left out because they are library calls with no pipeline logic.
- `calculate_std` is not modelled; nothing in the pipeline reads its result.
- `round(1)` of the forecasts is not modelled, because it is floating-point presentation. The `astype(str)` cast is modelled only as "nan" for a missing Pos.
- `pd.to_numeric(errors='coerce')` is not modelled: every stat is already a number or NaN.
- `exit(1)` on a missing model file is modelled as the error `MissingModel` of the first missing target.
- PredictionsPage.Compare: `localeCompare` is a parameter, and ordering results assume it is a total preorder (`Consistent`). `toLowerCase` is modelled on ASCII letters only.
- PredictionsPage.SortPredictions: the sort is a stable insertion sort; no stability result is stated. pandas `sort_values` (quicksort) leaves the order of equal keys unspecified. JavaScript's sort is stable.
- DataScraping.Stack: the scraped Season is the season's year as an integer. The code passes it as a string, and string order agrees with integer order for the four-digit years it uses.
- DataScraping.PlayerStats: the `empty` check before the CSV write is I/O and not modelled.
- Floating-point arithmetic is modelled with exact reals; int casts are modelled as truncation.
