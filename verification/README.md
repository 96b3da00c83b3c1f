# NFL projected-win and drive explorer dashboards — a Dafny model

This project models the data logic behind two Dash dashboards over NFL
play-by-play tables. One row per play carries the game, season, week,
play id, drive number (possibly missing), teams, yards, EPA, WPA, win
probabilities, the pregame spread and the running score.

- **Projected-win analysis** (`win_analysis.dfy`, module
  `ProjectedWinAnalysis`):
  - selects each game's terminal play: sort by (game_id, play_id), keep each game's last row;
  - classifies every game with a spread as an even match, a confirmed win or an upset of the favourite, with big-spread flags beyond 6 points;
  - derives the counts behind the three pies, the team bar chart and the per-season line chart;
  - builds the per-drive summary table of one selected game.
- **Drive explorer** (`drive_explorer.dfy`, module `DriveExplorer`):
  - holds a per-season cache of loaded tables (`class Explorer`);
  - lists the distinct games of a season and week;
  - lists one choice per drive of a game, with play count, EPA/WPA/yards totals and the starting score.
- **Shared play data** (`play_data.dfy`, module `PlayData`):
  - the play record;
  - code-point string order;
  - the (drive, play_id) order with missing drives last;
  - a stable sort's first and last row;
  - ascending unique drive numbers and the plays of one drive;
  - the proof that grouping by drive partitions the plays that have a drive.

Where the source works step by step (the loops of `classify_games`,
`display_drive_summary` and `update_drive_options`, and the module-level
`season_cache` dictionary), the model is a method, or a class with a `map`
field. Each such method is proved equal to a recursive specification
function, and the properties are lemmas about those functions.

Python truthiness is modelled as written:
- `not game_id` is true for `None` and `""`;
- `not season` is also true for season `0`;
- the explorer tests season and week only with `is None`.

## Model

| member | source | states |
|---|---|---|
| PlayData.StrLessTransitive | nfl_projected_win_analysis.py:34 | the game-id order used for sorting is transitive |
| PlayData.StrLessTotal | nfl_projected_win_analysis.py:34 | two different game ids are always ordered one way or the other |
| PlayData.StrLessIrreflexive | nfl_projected_win_analysis.py:34 | no game id sorts before itself |
| PlayData.FirstIndex | nfl_projected_win_analysis.py:256 | the row a stable (drive, play_id) sort puts first: no row sorts before it, and every earlier input row sorts strictly after it |
| PlayData.LastIndex | nfl_projected_win_analysis.py:256-261 | the row the same sort puts last (`iloc[-1]`): it sorts before no row, and every later input row sorts strictly before it |
| PlayData.InsertDrive | nfl_drive_explorer.py:102 | adding a drive number keeps the list strictly ascending and holds exactly the old numbers plus the new one |
| PlayData.DriveNumbers | nfl_drive_explorer.py:102 | `sorted(dropna().unique())`: strictly ascending, and it contains a number iff some play has that drive |
| PlayData.Where | nfl_drive_explorer.py:99-103 | a boolean-mask selection `df[mask]`: keeps exactly the rows the mask accepts, never more rows than the input |
| PlayData.FirstWhere | nfl_drive_explorer.py:111-112 | the index of the first row the mask accepts, or the length when none does: every earlier row is rejected |
| PlayData.WhereFirst | nfl_drive_explorer.py:111-112 | a selection keeps input order: it is empty iff no row matches, and otherwise its first row (`iloc[0]`) is the first matching input row |
| PlayData.WhereWhere | nfl_drive_explorer.py:99-103 | selecting with one mask and then another equals selecting once with both masks, rows and order alike |
| PlayData.WhereSame | nfl_drive_explorer.py:102-103 | two masks that agree on every input row select the same rows |
| PlayData.WhereSplit | nfl_drive_explorer.py:102-103 | a mask that is the disjoint union of two masks selects as many rows and yards as the two together |
| PlayData.DriveGroupNonEmpty | nfl_drive_explorer.py:103-105 | a drive number that occurs never has an empty group, so the `drive_df.empty` skip never fires |
| PlayData.DrivesPartitionPlays | nfl_projected_win_analysis.py:268 | over all drive numbers, the group sizes sum to the number of plays with a drive (the rows `groupby` keeps), and group yards sum to their total yards |
| PlayData.OverDistinctDrives | nfl_projected_win_analysis.py:268 | over ascending distinct drive numbers, group sizes and yards add up to those of the rows on any of those drives |
| PlayData.SplitOffDrive | nfl_projected_win_analysis.py:268 | adding a drive number not yet listed adds exactly that drive's rows and yards |
| ProjectedWinAnalysis.InsertTerminal | nfl_projected_win_analysis.py:34 | one step of sort-then-tail(1): keeps game ids strictly ascending; adds only the given row; keeps a row no earlier than every row seen of each game |
| ProjectedWinAnalysis.InsertTerminalKeeps | nfl_projected_win_analysis.py:34 | a row kept beside the new one is of another game or has a strictly larger play_id: on equal play_ids the later row replaces the earlier |
| ProjectedWinAnalysis.TerminalPlays | nfl_projected_win_analysis.py:34 | the end-game rows: ordered by game id, taken from the input, and for every input play there is a row of its game with play_id at least as large |
| ProjectedWinAnalysis.TerminalRowOfGame | nfl_projected_win_analysis.py:34 | each game has one end-game row, no play of that game has a larger play_id, and no later input row of that game has an equal one (the stable sort's tie-break) |
| ProjectedWinAnalysis.TerminalTakesLast | nfl_projected_win_analysis.py:34 | every end-game row is an input row after which no row of its game has a play_id as large, the row `tail(1)` takes after a stable sort |
| ProjectedWinAnalysis.TakenLastSnoc | nfl_projected_win_analysis.py:34 | appending a row of another game, or one with a smaller play_id, keeps a row the last of its game |
| ProjectedWinAnalysis.ExpectedWinner | nfl_projected_win_analysis.py:50-55 | the home team when spread > 0, the away team when spread < 0, "Even" when spread is 0, for every input; for two different team names, neither "Even" nor "Tie", each of these holds iff its condition does |
| ProjectedWinAnalysis.ActualWinner | nfl_projected_win_analysis.py:57-62 | the home team when it scored more, the away team when it scored more, "Tie" when the scores are equal, for every input; for two different team names, neither "Even" nor "Tie", each of these holds iff its condition does |
| ProjectedWinAnalysis.ClassifyRow | nfl_projected_win_analysis.py:39-84 | keeps the row's ids, teams and spread; records the expected winner of the spread and the actual winner of the final score; for every row, a zero spread or a tie is an even match, a confirmed win has equal winners, an upset has two different winners that are both teams of the game, and the two flags are never both set; for two different team names, neither "Even" nor "Tie": even match iff zero spread or tie, confirmed win iff the favourite won, upset iff it lost, home-favourite big upset iff spread > 6 and away won, away-favourite big upset iff spread < -6 and home won |
| ProjectedWinAnalysis.ClassifyAll | nfl_projected_win_analysis.py:36-86 | at most one classification per end-game row, and every one has flags consistent with its result and spread |
| ProjectedWinAnalysis.ClassifyAllKeepsSpreadRows | nfl_projected_win_analysis.py:47-48 | rows without a spread are skipped; the k-th classification is that of the k-th row that has a spread (the `Where` selection with mask HasSpread), so the table keeps input order |
| ProjectedWinAnalysis.ClassifyGames | nfl_projected_win_analysis.py:36-86 | the loop builds exactly the table of ClassifyAll |
| ProjectedWinAnalysis.BigUpsets | nfl_projected_win_analysis.py:95 | the big-upset table: exactly the games with either big-favourite flag |
| ProjectedWinAnalysis.Upsets | nfl_projected_win_analysis.py:98 | the upset table: exactly the games classified as upsets |
| ProjectedWinAnalysis.BigUpsetsWithinUpsets | nfl_projected_win_analysis.py:95-108 | if every classification is consistent, there are no more big upsets than upsets |
| ProjectedWinAnalysis.AllGamesVsUpsets | nfl_projected_win_analysis.py:99-102 | pie 1: both slices are non-negative and add up to the number of games |
| ProjectedWinAnalysis.UpsetsBySpreadSize | nfl_projected_win_analysis.py:106-109 | pie 2: the slices add up to the upsets; in a consistent table the "< 6" slice is non-negative |
| ProjectedWinAnalysis.BigUpsetsByFavourite | nfl_projected_win_analysis.py:112-119 | pie 3: the first slice is positive iff some row has the home-favourite flag, the second iff some row has the away-favourite flag; each counts at most the rows; over consistent big upsets home plus away equals their number |
| ProjectedWinAnalysis.BigUpsetSlicesAddUp | nfl_projected_win_analysis.py:95-119 | pie 3 over the big-upset table of a consistent classification adds up exactly to that table |
| ProjectedWinAnalysis.BigUpsetSlicesBySpread | nfl_projected_win_analysis.py:95-119 | over a consistent table, the home slice is positive iff some upset had spread > 6 and the away slice iff some upset had spread < -6 |
| ProjectedWinAnalysis.CountExpected | nfl_projected_win_analysis.py:126-127 | a team's upset count is positive iff it was the expected winner of some upset |
| ProjectedWinAnalysis.CountExpectedBig | nfl_projected_win_analysis.py:125-128 | a team's big-spread upset count is positive iff one of its upsets has a game id among the big upsets (`isin`), and never exceeds its upset count |
| ProjectedWinAnalysis.UpsetsByTeam | nfl_projected_win_analysis.py:123-129 | one bar per team that lost an upset as favourite; its total is that team's upset count and its big series the count of those upsets whose game id is a big upset, at least one and no more big-spread upsets than upsets |
| ProjectedWinAnalysis.TeamUpsetCounts | nfl_projected_win_analysis.py:122-129 | the bar chart's teams are exactly the expected winners of upsets in the classified table |
| ProjectedWinAnalysis.UpsetExpectedWinners | nfl_projected_win_analysis.py:123-126 | each upset row's expected winner appears in the upset table, and that table holds only upset rows of the classified table |
| ProjectedWinAnalysis.TeamBarsAreBeatenFavourites | nfl_projected_win_analysis.py:123-129 | over a consistent table, every team with a bar was the favourite of an upset, one of that game's teams, and not its winner |
| ProjectedWinAnalysis.CountSeason | nfl_projected_win_analysis.py:138 | a season's count is positive iff some upset happened in it |
| ProjectedWinAnalysis.UpsetsPerSeason | nfl_projected_win_analysis.py:138 | `value_counts`: a point for exactly the seasons with upsets, each the number of upsets in that season (CountSeason), between 1 and the number of upsets |
| ProjectedWinAnalysis.GameWinner | nfl_projected_win_analysis.py:261 | taken from the last row in (drive, play_id) order: home if home leads there, otherwise (a tie included) away |
| ProjectedWinAnalysis.DriveSummaryEndpoints | nfl_projected_win_analysis.py:268-287 | a drive's row: start is the smallest-play_id play, end the largest; posteam/defteam from the start; win probability from the winner's side or `wp`; change = end - start; yards summed over the drive; scores from the end |
| ProjectedWinAnalysis.SummarizeDrives | nfl_projected_win_analysis.py:268-287 | the drive table has exactly one row per drive number |
| ProjectedWinAnalysis.SummarizeDrivesAt | nfl_projected_win_analysis.py:268-287 | the k-th row of the drive table is the summary of the k-th drive |
| ProjectedWinAnalysis.SummaryRows | nfl_projected_win_analysis.py:268-287 | the loop appends exactly the rows of SummarizeDrives, in drive order |
| ProjectedWinAnalysis.DisplayDriveSummary | nfl_projected_win_analysis.py:249-289 | empty table and columns without a game id or season; raises when the season file is missing (the loader's frame of line 16 has no `game_id` column); empty for a game without rows; otherwise one row per ascending drive number of the game; columns listed iff there are rows |
| DriveExplorer.FirstPos | nfl_drive_explorer.py:80-81 | the position of an element's first occurrence |
| DriveExplorer.Dedup | nfl_drive_explorer.py:80-81 | `drop_duplicates`: no repeats, the same elements, in order of first occurrence |
| DriveExplorer.Triples | nfl_drive_explorer.py:80 | the (game_id, home_team, away_team) triple of each row, position by position, so a triple occurs iff some row carries it |
| DriveExplorer.GameOptions | nfl_drive_explorer.py:75-86 | no repeated game; a (game id, home, away) triple is offered iff some row of that week has it; choices come in order of first appearance among the week's rows; an empty week gives no choices |
| DriveExplorer.DriveOptionsOf | nfl_drive_explorer.py:101-120 | one choice per drive number |
| DriveExplorer.DriveOptionsAt | nfl_drive_explorer.py:101-120 | the k-th choice is the one for the k-th drive number |
| DriveExplorer.DriveOptionFields | nfl_drive_explorer.py:103-112 | a drive's choice: play count, EPA/WPA/yard sums over exactly the rows of that drive, and the score of the first such row in input order |
| DriveExplorer.DriveGroupStart | nfl_drive_explorer.py:99-103 | a drive's group within the week-and-game selection starts with the season's first row of that week, game and drive; no earlier season row has all three |
| DriveExplorer.DriveStartRow | nfl_drive_explorer.py:99-112 | the score a drive choice shows is that of the first row of the season table with that week, game and drive |
| DriveExplorer.OptionTotals | nfl_drive_explorer.py:101-120 | the choices' play counts and yards add up to the per-drive sums over the listed drives |
| DriveExplorer.DriveOptionsCoverGame | nfl_drive_explorer.py:101-120 | across all choices, play counts add up to the game's plays that have a drive, and yards to their total |
| DriveExplorer.Explorer.constructor | nfl_drive_explorer.py:14 | the season cache starts empty |
| DriveExplorer.Explorer.UpdateGameOptions | nfl_drive_explorer.py:60-86 | no choices and no cache change without a season and week; a cached season is served from the cache; an uncached season with a file is loaded and cached under that season only; a missing file gives no choices; other entries never change |
| DriveExplorer.Explorer.UpdateDriveOptions | nfl_drive_explorer.py:94-122 | no choices without a game id, season or week, or for an uncached season; otherwise one choice per ascending drive number of the game's rows that week |

## Left out

- User interface: the Dash layout, dropdown labels, Plotly figures and the other callbacks, which only render or route values:
  - `display_drive_plays`;
  - `update_season_dropdown` and `update_game_selector`;
  - the explorer's `display_drive_data`, which draws the drive table and the win-probability graph.
- File I/O. `load_single_season_data` and `pd.read_csv` become parameters:
  - `DisplayDriveSummary` takes the loaded season table, or None when its file is missing; it then yields `Raised`, standing for the `KeyError` of selecting `game_id` from the loader's column-less frame;
  - `UpdateGameOptions` takes `files`, a map from season to parsed table, standing for the season files that exist.
- The precomputed `classified_games.csv` and `big_upsets.csv` are not read. The counts are stated over any classified table, and the lemmas assume it is consistent as `classify_games` produces it.
- `background_worker.py` is not part of this model.
- `pd.to_numeric(..., errors='coerce')`: season and week are integers in the model, so no row has a missing week or season.
- NaN: only a missing spread and a missing drive are modelled. Missing scores, EPA or win probabilities are not.
- Floating point: EPA, WPA, spreads and win probabilities are exact reals, so `round(..., 4)` is not modelled.
  - `DriveExplorer.DriveOptionFields`: its EPA and WPA totals are exact sums, not rounded ones.
  - `ProjectedWinAnalysis.DriveSummaryEndpoints`: the same holds for its win-probability change.
- Label strings of the game and drive choices: only their values and the figures they show are modelled. The zero-padded week and the display text are not.
- Column presence: `'home_wp' in group.columns` and `'away_wp' in group.columns` are two booleans for the whole table, not per row.
- Pandas `groupby` key order:
  - `ProjectedWinAnalysis.UpsetsByTeam` and `ProjectedWinAnalysis.UpsetsPerSeason` return maps, so the order of bars and points (sorted keys) is not stated;
  - the per-season `sort_index` is likewise not modelled.
- `ProjectedWinAnalysis.DisplayDriveSummary`: the drive-summary winner gives a tie to the away team, because that is what the code does (nfl_projected_win_analysis.py:261). A tie is not treated as a win for neither side.
- `classify_games` is modelled even though in the source it sits inside a disabled string literal (nfl_projected_win_analysis.py:18-88). It is the only statement of the classification rules the charts read.
- The unused read of `big_upsets.csv` at nfl_projected_win_analysis.py:92 is not modelled: line 95 overwrites it.
