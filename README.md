# Winger and pass-network visualisations: the data logic

The plotting module `utils/visualizaciones_ext.py` draws, for one football player, a
team pass network and a map of the player's key actions in the opponent half, on an
Opta pitch whose coordinates run from 0 to 100. Before every drawing call it runs plain
data logic over the match's event table. This project models that logic and proves what
it promises:

- **Pass network** (`plot_pass_network_for_player`):
  - the guard clauses;
  - the team fallback chain: the explicit team, then the player's most frequent team,
    then the player table, then the match's most frequent team;
  - the filter that keeps the team's successful passes;
  - the receiver search over the following ten seconds of the team's events;
  - the undirected edges with counts, a threshold and the ego filter;
  - the nodes, each at the median of its samples and sized by passes received.
- **Winger actions** (`plot_winger_actions_for_player`):
  - type normalisation and "truthy" flag columns;
  - the nine drawn categories;
  - the de-duplication priorities: a goal wins over a shot, an assist over a key pass
    and a cross, a key pass over a cross;
  - `_endpoint_for_shot`, which places the end of a shot's arrow.
- **Helpers**:
  - `resolve_team_color`;
  - `_short_name`;
  - `_pick`;
  - the CSV separator rule of `_auto_csv_vis`.

Event tables are sequences of records with optional fields. A missing column, a NaN
cell and a cell that `to_numeric(errors="coerce")` rejects all read as `None`. Integer
ids are `Option<int>`; coordinates and times are `Option<real>`. Text cells keep
pandas' `astype(str)` behaviour: a missing cell reads as the text `"nan"`.

Modules:

| file | module | contents |
|---|---|---|
| `common.dfy` | `Common` | `Option`, order-preserving `Filter`, a sort by key, `Tally` (value counts), `int(float(x))` |
| `text.dfy` | `Text` | `str.lower`, `str.strip`, `in` on strings, `startswith`, Python's whitespace set |
| `stats.dfy` | `Stats` | `Series.mode().iloc[0]` and `Series.median()` |
| `tables.dfy` | `Tables` | `_pick` and the separator rule |
| `team_color.dfy` | `TeamColor` | `resolve_team_color` |
| `pass_network.dfy` | `PassNetwork` | the pass network and `_short_name` |
| `winger_actions.dfy` | `WingerActions` | the action classifier and `_endpoint_for_shot` |

The receiver search sorts the team's events by time and takes `good.index[0]`, so the
receiver is the *earliest* candidate within 12 units of the pass's end point, not the
nearest one. `PassNetwork.ReceiverIsEarliest` states this rule.
`PassNetwork.EarliestNotNearest` exhibits a pass where the earliest and the nearest differ.

The winger priorities remove events by id. An event without an id is never removed, so
a `goal` event without an id is drawn both as a goal and as a shot on target.
`WingerActions.ClassifyActions` states this as written: its disjointness promises are
about ids.

## Model

| member | source | states |
|---|---|---|
| Common.ParseId | utils/visualizaciones_ext.py:135-138 | `int(float(player_id))` succeeds exactly for a numeric argument; the result is the integer at or below a non-negative value and at or above a negative one, within 1 of it |
| Common.TruncToInt | utils/visualizaciones_ext.py:136 | `int()` of a float rounds toward zero: the result is within 1 of the value, on the side of 0 |
| Common.SortBy | utils/visualizaciones_ext.py:172 | `sort_values("t")` returns a permutation of the rows in non-decreasing key order |
| Common.Tally | utils/visualizaciones_ext.py:218 | `value_counts` maps exactly the values that occur to their number of occurrences |
| Common.FilterHead | utils/visualizaciones_ext.py:148 | the first row a mask keeps (`iloc[0]` of a masked column) is the first row of the table the mask holds for |
| Text.Lower | utils/visualizaciones_ext.py:156 | on ASCII text, `str.lower` keeps the length and lowers each capital letter |
| Text.Contains | utils/visualizaciones_ext.py:156 | `"pass" in s` holds exactly when `"pass"` occurs at some index of `s` |
| Text.Strip | utils/visualizaciones_ext.py:381 | `str.strip` gives the substring of the text left after removing whitespace from both ends: all that is removed is whitespace, and the result neither starts nor ends with it |
| Text.TrimEnd | utils/visualizaciones_ext.py:98 | right-stripping removes exactly the trailing whitespace |
| Text.TrailingRun | utils/visualizaciones_ext.py:98-99 | the last run of non-whitespace characters is a suffix preceded by whitespace or the start |
| Tables.Pick | utils/visualizaciones_ext.py:86-90 | returns nothing exactly when no listed name is a column; otherwise the first listed name that is one |
| Tables.FirstPresentUnique | utils/visualizaciones_ext.py:86-90 | only one name can be the first listed name present, so `_pick`'s answer is determined |
| Tables.CsvSeparator | utils/visualizaciones_ext.py:311 | the separator is `;` exactly when the first line has a semicolon and no comma, `,` otherwise |
| TeamColor.FirstRowWithId | utils/visualizaciones_ext.py:378-381 | `row.iloc[0]` is the first row whose id cell reads as the team id; there is none exactly when no row matches |
| TeamColor.ResolveTeamColor | utils/visualizaciones_ext.py:345-382 | the result differs from the default only if it is a `#` text of length 4 or 7 found by the lookup; whenever the lookup yields `v`, the result is `v` if `v` has that shape and the default otherwise; a missing table, a missing column, a non-numeric id and an unmatched id give the default |
| Stats.ModeAmong | utils/visualizaciones_ext.py:144 | picks a candidate that is at least as frequent as every other candidate, and the smallest among the equally frequent |
| Stats.Mode | utils/visualizaciones_ext.py:144 | `mode().iloc[0]` is a value of the column with the highest count, the smallest such value on a tie |
| Stats.MedianSplits | utils/visualizaciones_ext.py:215 | `median` leaves at least half the values on each side, and lies between the smallest and largest value |
| Stats.MedianOfConstant | utils/visualizaciones_ext.py:215 | the median of a column whose values are all equal is that value |
| Stats.MedianIsSortedMiddle | utils/visualizaciones_ext.py:215 | `Stats.Median` (`median`) is the middle value of the column sorted in any way, or the mean of its two middle values when the count is even |
| Stats.SortedUnique | utils/visualizaciones_ext.py:215 | two sorted arrangements of the same values are equal, so the sorted column `median` reads is determined |
| Stats.MiddleSplits | utils/visualizaciones_ext.py:215 | on a sorted column, the middle value (or the mean of the two middle values) splits the column in half |
| Stats.CountsIgnoreOrder | utils/visualizaciones_ext.py:215 | sorting does not change how many values lie on either side of a point |
| PassNetwork.TeamIdsOf | utils/visualizaciones_ext.py:142 | the non-missing team ids, each as many times as an event carries it |
| PassNetwork.PlayerEvents | utils/visualizaciones_ext.py:142 | keeps exactly the events whose player is the target, each as many times as it occurs in the table, so `mode()` counts the player's rows |
| PassNetwork.RosterTeam | utils/visualizaciones_ext.py:145-148 | the player table gives a team exactly when it is present and some row of the player has a team id, and then it is the team of the first such row |
| PassNetwork.TeamChainFails | utils/visualizaciones_ext.py:141-153 | `TeamChain` finds no team exactly when none is given, the player table has none for the player and no event carries a team |
| PassNetwork.TeamChainPicksModalTeam | utils/visualizaciones_ext.py:141-144 | with no explicit team, `TeamChain` gives a player with team-bearing events the team of most of them, the smallest id on a tie |
| PassNetwork.ResolveTeam | utils/visualizaciones_ext.py:141-151 | reassigning `team` step by step yields exactly the fallback chain: explicit team, player's modal team, player-table team, match's modal team |
| PassNetwork.SuccessfulPasses | utils/visualizaciones_ext.py:155-160 | a pass is kept exactly when its lower-cased type contains "pass", its lower-cased outcome is one of the four accepted spellings of success, and its team is the resolved team; each kept row appears as many times as in the table |
| PassNetwork.TeamTimeline | utils/visualizaciones_ext.py:170-172 | a permutation of the team's events (each as many times as in the table, no other event) in non-decreasing time |
| PassNetwork.Candidates | utils/visualizaciones_ext.py:183-184 | candidates are exactly the team events by another known player strictly after the pass and at most 10 seconds later |
| PassNetwork.NearCandidates | utils/visualizaciones_ext.py:187-188 | near candidates are exactly the candidates starting within 12 units of the pass's end point |
| PassNetwork.ReceiverIsEarliest | utils/visualizaciones_ext.py:165-194 | `ReceiverOf` keeps a related player; a pass without one and with an incomplete end point stays unresolved; otherwise `SearchReceiver` picks the earliest near candidate, with none near the earliest candidate, with no candidate nothing, and never the passer |
| PassNetwork.EarliestNearIsReceiver | utils/visualizaciones_ext.py:187-191 | a near candidate strictly earlier than every other near candidate is the receiver, however far it is compared with them |
| PassNetwork.EarliestNotNearest | utils/visualizaciones_ext.py:187-191 | a team-mate 10 units away at +2 s is chosen over one exactly at the end point at +5 s |
| PassNetwork.ResolveReceivers | utils/visualizaciones_ext.py:165-194 | after the loop, every pass's receiver is its related player if present, else the search result |
| PassNetwork.Links | utils/visualizaciones_ext.py:196 | the kept passes are exactly those with a resolved receiver, paired with it |
| PassNetwork.LinksCount | utils/visualizaciones_ext.py:196-200 | each pass row with a receiver gives one link: a link occurs exactly as often as the rows with that pass and receiver |
| PassNetwork.PairKeysCount | utils/visualizaciones_ext.py:200-203 | the unordered pair `(a, b)` occurs as often as there are passes between `a` and `b` in either direction when `a <= b`, never otherwise |
| PassNetwork.EdgesAreMergedPairs | utils/visualizaciones_ext.py:200-208 | `Edges` has an edge `(a, b)` exactly when `a <= b`, some pass went between them, the merged count reaches `min_edge_count`, and `show_all` holds or one end is the player; its count is the passes both ways |
| PassNetwork.SamplesOf | utils/visualizaciones_ext.py:215 | the position samples grouped under one player are exactly theirs |
| PassNetwork.SamplesOfCount | utils/visualizaciones_ext.py:213-215 | each of a player's rows of `pos_all` is grouped under the player as many times as it occurs, so the median reads every sample row once |
| PassNetwork.NodesArePositionMedians | utils/visualizaciones_ext.py:210-219 | `Nodes` has a node exactly for a player who starts a kept pass with both start coordinates or receives one with both end coordinates; its coordinates are `Stats.Median` of those samples (the pandas rule, by `Stats.MedianIsSortedMiddle`), so they split the samples in half; its size is the passes it received |
| PassNetwork.NetworkIsNoOp | utils/visualizaciones_ext.py:82-162 | `NetworkOf` is `None`, the function returning before drawing, exactly when the events are empty, the player argument is missing or not numeric, no team resolves, or the team has no successful pass |
| PassNetwork.BuildNetwork | utils/visualizaciones_ext.py:82-219 | the guard clauses, the team chain, the filter, the receiver loop and the aggregation build exactly `NetworkOf`, the network described by the lemmas above |
| PassNetwork.TwoEventMatchNetwork | utils/visualizaciones_ext.py:141-219 | a match of one successful pass by player 1 (team 5) from (40, 50) to (60, 50) with no related player, and a touch by player 2 at (62, 49) five seconds later, gives team 5, the single edge (1, 2) with one pass, player 1's node at (40, 50) with size 0 and player 2's at (60, 50) with size 1 |
| PassNetwork.ShortName | utils/visualizaciones_ext.py:95-99 | a non-string name gives ""; a blank name is returned as is; otherwise the result is the last whitespace-free token of the name |
| WingerActions.NormalizeText | utils/visualizaciones_ext.py:581-583 | the normalised type has no whitespace, `_`, `-` or capital letter, and keeps every other lower-cased character |
| WingerActions.NormalizeConcat | utils/visualizaciones_ext.py:581-583 | the normalisation works character by character: the normalised concatenation is the concatenation of the normalised parts |
| WingerActions.NormalizeChar | utils/visualizaciones_ext.py:581-583 | one character normalises to nothing when it is whitespace, `_` or `-`, and to itself lower-cased otherwise |
| WingerActions.NormalizeIdempotent | utils/visualizaciones_ext.py:581-583 | normalising a normalised type changes nothing |
| WingerActions.Truthy | utils/visualizaciones_ext.py:585-591 | a flag is set exactly when its value is present and at least 1 |
| WingerActions.IdsOf | utils/visualizaciones_ext.py:658 | the set of non-missing event ids of a category |
| WingerActions.ClassifyActions | utils/visualizaciones_ext.py:628-671 | each category holds exactly the player's opponent-half events of its kind, minus the events that a higher-priority category claims by id; afterwards goals share no id with shots, assists none with key passes or crosses, and key passes none with crosses |
| WingerActions.Clamp | utils/visualizaciones_ext.py:742 | `min(100, max(0, v))` is the point of the pitch nearest to `v` |
| WingerActions.EndpointForShot | utils/visualizaciones_ext.py:720-744 | the arrow always ends on the pitch horizontally, and vertically too when the shot's height and the goal mouth lie on it |
| WingerActions.EndpointPriorities | utils/visualizaciones_ext.py:731-744 | a recorded end point on the pitch wins; else the goal mouth at x = 100; else the recorded end point clamped; else (100, y) |
| WingerActions.EndpointNearestOnPitch | utils/visualizaciones_ext.py:739-742 | with no goal mouth, an off-pitch recorded end point moves to the nearest point of the pitch |

## Left out

- Drawing: every matplotlib and mplsoccer call, the palette, the legend, labels and markers (shirt number versus short name, starter markers), and the name maps built for them.
- Floating point: coordinates, times and medians are exact reals. With floats, `hypot(dx, dy) <= 12` and `dx*dx + dy*dy <= 144`, and `t <= t0 + 10`, can disagree at the boundary, and the mean of the two middle values is rounded. The model does not capture these rounding effects.
- Edges without a node: the drawing loop skips an aggregated edge one of whose ends has no node (lines 249-250). `PassNetwork.NetworkOf` keeps such an edge. It is a drawing decision and changes no count.
- Edge line width and node size: they are floating-point cosmetics computed from the modelled counts.
- File reading: `_auto_csv_vis` is modelled by its separator rule only. `get_match_data_for_player` and the `*_auto` wrappers are not part of this model. A teams table that is not given or cannot be read is `None`. A table that lacks a needed column is present, and `Tables.Pick` then finds no column for it.
- Column selection in the pass network: the choice between alternative column names (lines 102-128) is `_pick`, which is modelled on its own. Events are given with the chosen columns already read.
- Numeric parsing: `to_numeric(errors="coerce")` and the `Int64` casts are abstracted as `Option` values. The crash that an `Int64` cast raises on a non-integral float is not modelled. Player-table ids and teams are taken as integers, so the truncation of line 148 does not appear.
- `goalMouthY`: the choice between the `goalMouthY` and `qNone_GoalMouthY` columns is made before the model. Each event carries the value that was picked.
- Text.Lower: lowers the ASCII letters only and keeps the length. Python's `str.lower` also lowers every other Unicode letter, and can lengthen the text (`'İ'.lower()` has two code points). Full Unicode case mapping is not modelled. Whitespace is Python's `str.isspace` set, written out.
- Tie order of `sort_values("t")`: pandas does not promise a stable sort. The model uses one particular order. Every receiver property is stated for any time order, so it holds whatever order equal times get.
- The winger function's unused team resolution (lines 617-625): its result is never read.
- Crashes of the winger function: a missing `outcomeType` column fails on `"".astype`, and a flag column read as a plain `Series` can misalign with a non-default index. The unused team lookup can also crash: line 623 reads a `playerId` column that may be missing, and line 625 applies `int(float(...))` to a `teamId` that may be NaN. `WingerActions.ClassifyActions` covers tables on which the function runs to the end.
- WingerActions.EndpointForShot: `x` is read by the source but never affects the result, so it is not a parameter.
