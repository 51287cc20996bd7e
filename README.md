# Valorant rating lab — a Dafny model of the rating core

The rating lab reads a table of per-match player statistics, derives eight
per-round metrics for every player, turns them into z-scores (within each
role, or over all players), combines the z-scores with a set of weights into
a raw score and rescales the raw scores into ratings centred on 1.0 with a
chosen spread. The players are then ranked by rating, highest first. The
results can be written back out as comma-separated text.

The model covers that core, all of which lives in `src/App.jsx`:

- `stats.dfy` (`Stats`): `mean`, `std`, `robustZ` and `round2`, with the
  facts that z-scores sum to zero and have unit variance, and that a value's
  z-score does not fall when that value rises and the others stay fixed.
- `tables.dfy` (`Tables`): the agent-to-role table, the weight names, the
  default weights and the presets.
- `csv.dfy` (`Csv`): the writer `toCSV` and the reader `parseCSV`. The reader
  is imperative, a loop over lines around a character-level state machine,
  and is modelled by methods proved against reference functions.
- `players.dfy` (`Players`): `csvToObjects`, the field rules that turn a
  record into a typed player.
- `derive.dfy` (`Derive`): `computeDerived`, the eight per-round metrics.
- `standardize.dfy` (`Standardize`): `standardizeRows`, the grouping by role
  and the z-score table. It is built by loops, so it is modelled by methods
  proved against reference functions.
- `ratings.dfy` (`Ratings`): `computeRatings`, the weighted raw score and
  the rescaling.
- `ranking.dfy` (`Ranking`): the stable sort of the rated players by
  descending rating.

Numbers are modelled as exact reals. Two pieces of code the model cannot
see are passed in as parameters:

- `Math.sqrt` is the parameter `sqrt: real -> real`. Lemmas that need it to
  be a square root take the precondition `Stats.IsRootOf(sqrt, v)` at the
  one value `v` where it is used.
- `Number(...)` is the parameter `toNumber: string -> real`.

## Model

| member | source | states |
|---|---|---|
| Stats.Mean | src/App.jsx:43 | the mean, 0 for an empty array; what it means is stated by Stats.MeanAffine and by the lemmas on the z-scores below |
| Stats.Variance | src/App.jsx:46-47 | the population variance, the mean of the squared deviations; Stats.VarianceZeroIff and Stats.VarianceAffine state its meaning |
| Stats.Std | src/App.jsx:44-49 | 0 for fewer than two values, else `sqrt` of the variance; Stats.SpreadIsRoot ties it to the variance |
| Stats.RobustZ | src/App.jsx:51-55 | one z-score per value; Stats.ZScoresSumToZero, Stats.ZScoresUnitVariance, Stats.ConstantGroupZScores and Stats.ZScoreRises state what they are |
| Stats.Spread | src/App.jsx:53 | the divisor, the standard deviation with 1e-6 as fallback, is never zero; it is the standard deviation, or 1e-6 when that is 0 |
| Stats.Round2 | src/App.jsx:42 | the result lies within half a cent of the input (above by at most 0.005, below by less) and is a whole number of hundredths |
| Stats.VarianceZeroIff | src/App.jsx:43-49 | the population variance is never negative, and it is 0 exactly when all values are equal |
| Stats.ZScoresSumToZero | src/App.jsx:51-55 | the z-scores of any sequence sum to zero |
| Stats.ZScoresUnitVariance | src/App.jsx:43-55 | when at least two values differ and `sqrt` is a root of their variance, the z-scores have variance 1 |
| Stats.SpreadIsRoot | src/App.jsx:44-49 | under the same conditions the divisor squared is the variance |
| Stats.ConstantGroupZScores | src/App.jsx:44-55 | in a group whose values are all equal, the divisor falls back to 1e-6 and every z-score is 0 |
| Stats.VarianceAffine | src/App.jsx:43-49 | the variance of `a + b*x` is `b*b` times the variance of `x` |
| Stats.MeanAffine | src/App.jsx:43 | the mean of `a + b*x` is `a` plus `b` times the mean of `x` |
| Stats.ZScoreRises | src/App.jsx:51-55 | raising one value with the others fixed never lowers its z-score; it raises it strictly when two of the other values differ |
| Stats.PairZScores | src/App.jsx:51-55 | in a group of two different values the z-scores are -1 and 1, however far apart the two values are |
| Tables.RoleOf | src/App.jsx:113-141 | the role is one of the four roles or "Unknown"; it is "Unknown" exactly when the agent is not in the table, and otherwise the table's entry |
| Tables.SampleAgentsHaveRoles | src/App.jsx:144-154 | every agent of the sample data has a known role, the role-mapping self-check at lines 430-431 |
| Tables.PresetsComplete | src/App.jsx:205-260 | every preset sets all eight weight names to a weight in (0, 0.5] |
| Csv.SplitOn | src/App.jsx:81 | splitting at a separator gives at least one piece, and no piece contains the separator |
| Csv.JoinSplit | src/App.jsx:81 | joining the pieces of a split with the separator gives back the text |
| Csv.SplitJoin | src/App.jsx:75 | splitting lines joined by a separator they do not contain gives back the lines |
| Csv.ToCsv | src/App.jsx:67-76 | the text is empty exactly when there are no rows, and otherwise holds a newline between the header line and the data lines; Csv.ToCsvRoundTrip states how its lines split back, and Csv.ToCsvLines and Csv.ToCsvParsedRecords what the reader gives back |
| Csv.Escape | src/App.jsx:70-73 | a cell without a quote, comma or newline is written unchanged; any other cell is wrapped in quotes |
| Csv.DoubleQuotes | src/App.jsx:72 | never shortens the text, and leaves text without a double quote unchanged; Csv.ScanEscaped states that reading undoes it |
| Csv.ScanEscaped | src/App.jsx:70-73 | the reader's state machine reads an escaped cell back as the original cell |
| Csv.FieldsOfEncodedLine | src/App.jsx:74 | reading a written data line gives back exactly its cells |
| Csv.EncodedLineHasNoNewline | src/App.jsx:72-74 | a data line built from cells without newlines contains no newline |
| Csv.ToCsvRoundTrip | src/App.jsx:67-76 | for rows without newlines, the output splits at newlines into the header line and the data lines; a header without commas splits back into the keys of the first row; and every data line reads back as that row's values under those keys |
| Csv.ToCsvLines | src/App.jsx:67-79 | the reader's line split (trim, then split at `\r?\n`) gives back exactly the lines written, for headers and values without newlines or a trailing carriage return and a text without white space at either end |
| Csv.ToCsvParsedRecords | src/App.jsx:67-109 | under the same conditions, and with header names holding no comma and no white space at either end, `parseCSV(toCSV(rows))` has one record per row holding that row's values under the first row's keys |
| Csv.SplitLinesOfJoin | src/App.jsx:79 | splitting lines joined by newlines gives them back, when none of them ends in a carriage return |
| Csv.TrimStart | src/App.jsx:79 | removes exactly the leading white space |
| Csv.TrimEnd | src/App.jsx:79 | removes exactly the trailing white space |
| Csv.Trim | src/App.jsx:79 | the result is a slice of the input with only white space before and after it, and it neither starts nor ends with white space |
| Csv.SplitLines | src/App.jsx:79 | one line per newline-separated piece, none holding a newline; Csv.SplitLinesOfJoin and Csv.SplitLinesOfCrLf state that it undoes joining with `\n` or `\r\n` |
| Csv.Lines | src/App.jsx:79 | the trimmed text split into at least one line, none holding a newline |
| Csv.HeaderCells | src/App.jsx:81 | one header per comma-separated piece of the first line, each the trimmed piece |
| Csv.HeaderCellsOfJoin | src/App.jsx:75-81 | the header line `headers.join(",")` reads back as the same headers when none holds a comma or surrounding white space |
| Csv.DropCR | src/App.jsx:79 | a line ending in a carriage return loses exactly that one character; any other line is unchanged |
| Csv.SplitLinesOfCrLf | src/App.jsx:79 | splitting lines joined by a carriage return and a newline gives them back, when none contains a newline |
| Csv.Scan | src/App.jsx:87-104 | the state machine only appends cells to those already finished, and always at least one |
| Csv.Fields | src/App.jsx:84-104 | a data line has at least one cell; Csv.FieldsOfEncodedLine and Csv.UnbalancedQuoteAccepted state how it reads quotes |
| Csv.RecordOf | src/App.jsx:105-106 | the record of a data line; Csv.RecordKeys, Csv.RecordValues and Csv.ExtraCellsIgnored state its keys and values |
| Csv.ParsedRecords | src/App.jsx:78-110 | one record per line after the header line; Csv.ParseCsv is proved equal to it |
| Csv.SplitRow | src/App.jsx:84-104 | the loop over the characters of a line produces exactly the cells of the state machine |
| Csv.BuildRecord | src/App.jsx:105-106 | the record built header by header is the reference record of the line |
| Csv.ParseCsv | src/App.jsx:78-110 | one record per line after the header line, each the reference record of its line |
| Csv.RecordKeys | src/App.jsx:105-106 | a record's keys are exactly the header names |
| Csv.RecordValues | src/App.jsx:105-106 | a header name gets the cell at its last position in the header line, or "" when the line is too short |
| Csv.ExtraCellsIgnored | src/App.jsx:105-106 | cells beyond the last header are dropped |
| Csv.UnbalancedQuoteAccepted | src/App.jsx:88-94 | an unclosed quote is accepted: `"a,b` reads as the single cell `a,b` |
| Players.Num | src/App.jsx:159 | an absent or empty cell reads as 0; Players.EmptyCellsDefault states the default for a whole line |
| Players.Percent | src/App.jsx:160-165 | an absent or empty cell reads as 0; Players.PercentSignRemoved states which percent sign is dropped |
| Players.RemoveFirst | src/App.jsx:163 | removes exactly one percent sign when there is one and otherwise leaves the text unchanged |
| Players.PercentSignRemoved | src/App.jsx:160-165 | a percentage cell is converted after losing its first percent sign, and only that one |
| Players.NameOf | src/App.jsx:168 | the name is `Player_Name` when that is non-empty, otherwise `name` |
| Players.ToPlayer | src/App.jsx:167-196 | the typed player keeps the name and agent; its role is the agent table's role for its agent; the attack and defence rounds are the `Attack_Got_Round` and `Defense_Got_Round` cells and the rounds their sum; every count, average and side column is `num` of its own column (`Kill_All`, `Death_All`, `Assists_All`, `Fk_All`, `Fd_All`, `Acs_All`, `Adr_All` and the `_Attack`/`_Defence` columns) and every percentage `parsePercent` of its own (`Kast_All`, `Hs_All`, `Kast_*`, `Hs_*`) |
| Players.TotalDamageRule | src/App.jsx:184 | the total damage is the average damage per round times the rounds |
| Players.EmptyCellsDefault | src/App.jsx:159-165 | a line of empty cells gives a player with no name, an unknown role and every number 0 |
| Players.CsvToObjects | src/App.jsx:156-202 | one player per data line, each the typed player of its parsed record |
| Derive.Divisor | src/App.jsx:263 | the divisor R is at least 1; it is the number of rounds, or 1 when there are fewer than one |
| Derive.SideKpr | src/App.jsx:273-274 | a side without rounds has the overall kills per round; otherwise the result times the side's rounds is the side's kills, or half of all kills when that column is 0 |
| Derive.SideKprRules | src/App.jsx:273-274 | the same facts for `attackKPR` and `defenseKPR` of a player: each times its side's rounds gives back its side's kills (half of all kills when the side's column is 0), and without rounds times R gives back all kills |
| Derive.ConsistencyOf | src/App.jsx:274-286 | the consistency lies in [0, 1], and it is 1 exactly when attack and defence kills per round are equal |
| Derive.ConsistencyUnclamped | src/App.jsx:276-286 | with non-negative kills per round the clamp at 0 never acts |
| Derive.ComputeDerived | src/App.jsx:262-288 | each per-round metric times R gives back its count; the rates are the percentages over 100; `adr` falls back to total damage over R only when it is 0; the consistency is Derive.ConsistencyOf of the attack and defence kills per round, so it lies in [0, 1] and is 1 exactly when they are equal; the input record is kept |
| Derive.PerRoundMonotone | src/App.jsx:263-265 | with the same rounds, more deaths never lower deaths per round and more kills never lower kills per round |
| Standardize.DerivedRows | src/App.jsx:291 | one derived record per player, in order: the `computeDerived` record of that player |
| Standardize.WithRoleMembers | src/App.jsx:293-299 | a role's group holds exactly the players of that role |
| Standardize.RolesInOrderMembers | src/App.jsx:293-299 | the groups' roles are distinct and are exactly the roles that occur |
| Standardize.GroupedAt | src/App.jsx:294-298 | the reduce accumulator has an entry exactly for each role that occurs, holding that role's players in input order |
| Standardize.Groups | src/App.jsx:292-300 | the groups: the players of each role in order of first appearance, or everybody; Standardize.GroupByRole is proved equal to it and Standardize.GroupOf places every player in one group |
| Standardize.GroupByRole | src/App.jsx:292-300 | the groups are the players of each role, in the order in which the roles first occur |
| Standardize.LastIndex | src/App.jsx:315-323 | the last position of a name in a group |
| Standardize.Zed | src/App.jsx:314-324 | the z-score table of a group has an entry for exactly the group's names |
| Standardize.ScoresAt | src/App.jsx:316-323 | after the first metrics, a name's entry holds the z-scores of its last occurrence in the group for those metrics |
| Standardize.ScoreGroup | src/App.jsx:314-324 | the metric loop and its inner loop build the group's z-score table |
| Standardize.StoreGroup | src/App.jsx:325 | storing a group's entries overwrites the table at exactly the group's names |
| Standardize.BuildTable | src/App.jsx:312-326 | the group loop builds the table of all groups, later groups overwriting earlier ones |
| Standardize.StandardizeRows | src/App.jsx:290-330 | one output row per player: its derived record and its z-scores from the table |
| Standardize.StandardizedRows | src/App.jsx:290-330 | one row per player; Standardize.StandardizeRows is proved equal to it, and Standardize.StandardizedShape and Standardize.StandardizedAgainstPeers state its contents |
| Standardize.ZTableEntries | src/App.jsx:312-326 | every entry of the table has all eight metrics, and every name of every group has an entry |
| Standardize.GroupOf | src/App.jsx:292-300 | every player is in exactly the group of its peers: the players of its role, or all players |
| Standardize.StandardizedShape | src/App.jsx:329 | every output row has the player's derived record and z-scores for all eight metrics |
| Standardize.PeerZ | src/App.jsx:318-319 | a value's z-score among its peers, the reference Standardize.StandardizedAgainstPeers is proved against |
| Standardize.StandardizedAgainstPeers | src/App.jsx:290-330 | with distinct names, a player's z-score for a metric is its value's distance from the peers' mean over the peers' spread |
| Standardize.StandardizedRowAgainstPeers | src/App.jsx:290-330 | with distinct names, a player's whole z-score row is its row of z-scores against its peers, one per metric |
| Ratings.WeightKey | src/App.jsx:336-343 | every metric's weight name is one of the eight weight names |
| Ratings.WeightKeysInOrder | src/App.jsx:336-343 | the metrics and the weight names correspond one to one, in order |
| Ratings.EffectiveTarget | src/App.jsx:352 | the target spread is never 0; it is the option given unless that is 0, and 0.15 when it is 0 |
| Ratings.WeightOf | src/App.jsx:336-343 | a weight is 0 exactly when it is missing or 0, and otherwise the weight given |
| Ratings.ZOf | src/App.jsx:336-343 | a missing z-score counts as 0, a present one as itself |
| Ratings.ContributionAt | src/App.jsx:336-344 | the k-th contribution is the weight named k-th in the weight table, negated for deaths per round, times the k-th metric's z-score |
| Ratings.Contribution | src/App.jsx:336-343 | weight times z-score, negated for deaths per round; Ratings.MissingContributesZero and Ratings.DeathsLowerRawSum state its defaults and sign |
| Ratings.Contributions | src/App.jsx:335-344 | the eight contributions, one per metric in order; Ratings.ContributionAt states each |
| Ratings.RawSum | src/App.jsx:345 | the sum of the eight contributions; Ratings.NoScoresRawSumZero and Ratings.DeathsLowerRawSum state its meaning |
| Ratings.MissingContributesZero | src/App.jsx:336-343 | a metric without a weight or without a z-score contributes nothing |
| Ratings.NoScoresRawSumZero | src/App.jsx:329-345 | a player without z-scores has a raw score of 0 |
| Ratings.DeathsLowerRawSum | src/App.jsx:337 | with a non-negative deaths weight, a higher deaths-per-round z-score never raises the raw score, and with a positive weight it lowers it |
| Ratings.MoreDeathsLowerRawSum | src/App.jsx:318-337 | more deaths per round for one player, the rest of the peer group unchanged, never raise the raw score; with a positive deaths weight it falls strictly when two of the other players' values differ |
| Ratings.PairDeathsKeepRawSum | src/App.jsx:51-55 | in a group of two, the player with more deaths per round keeps the z-score 1, so raising their deaths per round from 1 to 2 against a peer at 0 leaves the raw score unchanged |
| Ratings.ComputeRatings | src/App.jsx:332-364 | one rated entry per player, with its name, role and derived record; its z-scores are the standardized row's, its contributions are computed from them and its raw score is their sum; the ratings are the raw scores rescaled |
| Ratings.RatedAgainstPeers | src/App.jsx:290-346 | with distinct names, a rated player's z-scores are its scores against its peers, and its contributions and raw score are computed from those |
| Ratings.Rescale | src/App.jsx:349-356 | one rating per raw score; Ratings.RescaleMean, Ratings.RescaleVariance, Ratings.RescaleStd, Ratings.RescaleOrder and Ratings.RescaleAllEqual state its meaning |
| Ratings.RescaledMean | src/App.jsx:349-355 | scores rescaled around their own mean average exactly 1 |
| Ratings.RescaledVariance | src/App.jsx:349-355 | rescaling by target over spread gives variance target squared |
| Ratings.RescaledOrder | src/App.jsx:352-355 | rescaling keeps the order of the raw scores for a positive target and reverses it for a negative one |
| Ratings.RescaleMean | src/App.jsx:349-355 | the ratings of any non-empty list of raw scores average 1 |
| Ratings.RescaleVariance | src/App.jsx:349-355 | when at least two raw scores differ, the ratings' variance is the target squared |
| Ratings.RescaleStd | src/App.jsx:349-355 | under the same conditions the ratings' standard deviation is the magnitude of the target |
| Ratings.RescaleOrder | src/App.jsx:349-355 | the ratings keep the order of the raw scores for a positive target and reverse it for a negative one |
| Ratings.RescaleAllEqual | src/App.jsx:349-355 | when all raw scores are equal every rating is exactly 1 |
| Ratings.RatingsAverageOne | src/App.jsx:421-423 | the ratings average 1, the first self-check |
| Ratings.RatingsSpreadIsTarget | src/App.jsx:421-424 | the ratings' standard deviation is the target, the second self-check |
| Ratings.RatingsFollowRawSums | src/App.jsx:347-356 | with a non-negative target, one player's rating is at most another's exactly when their raw score is |
| Ranking.Insert | src/App.jsx:455-458 | one step of the stable sort; Ranking.InsertPermutes and Ranking.InsertStable state what it does |
| Ranking.Sort | src/App.jsx:455-458 | the ranking; Ranking.SortDescending, Ranking.SortPermutes and Ranking.SortStable state that it is ordered, a permutation and stable |
| Ranking.InsertPermutes | src/App.jsx:455-458 | inserting adds exactly the one element |
| Ranking.InsertStable | src/App.jsx:455-458 | an inserted element goes after those with the same rating |
| Ranking.SortDescending | src/App.jsx:455-458 | the ranking is ordered by rating, highest first |
| Ranking.SortPermutes | src/App.jsx:455-458 | the ranking holds the same players, each as often as in the input |
| Ranking.SortStable | src/App.jsx:455-458 | players with equal ratings keep their input order |
| Ranking.TopIsBest | src/App.jsx:426-427 | the first of the ranking is rated at least as high as every player, and at least as high as the last (the third self-check) |

## Left out

- The user interface: the React component, its state and memoised values, the
  sliders, preset buttons, badges, tabs, tables, charts and help text.
- `downloadText`, `exportResults` and `handleCSVLoad`: browser file I/O.
- `chartData` in `computeRatings`: presentation only; the `rated` entries are
  modelled.
- `runSelfTests` itself: its four checks are stated as lemmas. The first two
  are exact here (mean exactly 1, standard deviation exactly the target),
  where the application compares floating-point values with a tolerance.
- Floating point: numbers are exact reals. Overflow, rounding, NaN and
  infinities are not modelled, so neither is `Number` returning NaN for
  text that is not a number.
- `Math.sqrt` and `Number` are parameters; the model assumes nothing about
  them except where a lemma states `IsRootOf` at a point.
- `String(value)` for numbers in `toCSV`: a row is modelled as entries
  whose values are already strings.
- Regular expressions are modelled by their effect on the text:
  `/\r?\n/`, `/[",\n]/` and `/"/g`.
- Keys inherited by every JavaScript object (such as `constructor` or
  `__proto__`) are not modelled: `AGENT_TO_ROLE[agent]` (src/App.jsx:170) is
  looked up in the table alone; `zed[id] = zed[id] || {}` (src/App.jsx:322)
  starts a player's row empty even when the name is such a key; and
  `obj[h] = ...` (src/App.jsx:106) stores a header named `__proto__` as an
  ordinary key.
- The `raw` field stored next to each entry of the z-score table is never
  read by the application and is not kept in the model's table.
- `if (!lines.length) return []` in `parseCSV` cannot be taken, because
  splitting always yields at least one line; the model has no branch for it.
- The header line of `parseCSV` is split at every comma, and quotes in it
  are not interpreted. This is the application's own behaviour, and the
  model keeps it.
- Csv.ToCsvRoundTrip: stated for rows whose values contain no newline. A
  quoted cell with a newline would be broken across lines by the reader,
  which splits the text into lines before it looks at quotes. It splits the
  text at newlines only; the reader's own split is Csv.ToCsvLines.
- Csv.ToCsvParsedRecords: the writer's output does not always read back
  unchanged, and the lemma is stated only where it does. A value that ends
  in a carriage return is not quoted (only `"`, `,` and newlines are), and
  the reader drops that carriage return; white space at the start of the
  first header or at the end of the last row's last value is removed by the
  reader's trim; a header holding a comma or white space at its ends is
  split or trimmed by the header split. Csv.ToCsvLines carries the same
  conditions except those on headers.
- Csv.SplitLinesOfJoin: stated for lines that do not end in a carriage
  return, which the reader drops.
- Ratings.RatingsSpreadIsTarget: needs `sqrt` to be a root of the raw
  scores' variance and of the target squared, and needs the raw scores not
  all equal. For equal raw scores every rating is 1 (Ratings.RescaleAllEqual).
- Standardize.StandardizedAgainstPeers: stated for players with distinct
  names. With a repeated name the application's name-keyed table gives
  every player of that name the scores of the last one stored, and the
  model reproduces that overwrite without a lemma about it.
- Ratings.RescaleOrder: needs `sqrt` to give a non-negative result at the
  raw scores' variance.
- Ratings.RatingsFollowRawSums: stated for a non-negative target. A
  negative target reverses the order, as Ratings.RescaleOrder states.
- Ratings.MoreDeathsLowerRawSum: the strict fall of the raw score is stated
  only when two of the other players' values differ. The application's
  z-scores do not give more in every group, as the first row of "## Findings"
  shows. The lemma changes the deaths-per-round z-score alone and keeps the
  other z-scores of the player; deaths enter no other metric.
- Ranking: the sort of the language is modelled as a stable insertion sort.
  The model fixes the resulting order; which comparisons are made is not
  modelled.

## Findings

| source | as written | input that shows it | evidently intended | confidence | as-written member | corrected member |
|---|---|---|---|---|---|---|
| src/App.jsx:51-55 | in a group of two the z-scores are -1 and 1 whatever the gap, so more deaths per round can leave the raw score unchanged | a peer at 0 deaths per round and a player whose deaths per round rise from 1 to 2: the player's z-score stays 1 | more deaths per round never raise the raw score, and lower it when the deaths weight is positive and the rest of the group is not uniform; the code is kept and the claim is stated with that condition | not executed | Ratings.PairDeathsKeepRawSum | Ratings.MoreDeathsLowerRawSum |
