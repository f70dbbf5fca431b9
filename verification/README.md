# Munich Mixed Mixed Games: the round draw

The Munich Mixed Mixed Games web page has a "Draw Pairings" button. Pressing it reads
the `Teams` and `Sports` columns of the event's spreadsheet, drops the empty cells and
shuffles both lists. It then pairs consecutive teams, (0,1), (2,3) and so on. With an
odd number of teams the last one sits out as the free team. If there are more pairings
than sports, the surplus pairings are cut off. Pairing i plays sport i, and the result
is shown as a table with the columns Team A, Team B and Sport. Below the draw, the page
lists the registered teams and sports, each name once, in the order the sheet first
gives it.

This project models that computation in Dafny and proves what it guarantees:

- `wrappers.dfy` (`Wrappers`): `Option`, for a missing cell and for "no free team".
- `seqs.dfy` (`Seqs`): `Min`, `NoDuplicates`, and facts about duplicate-free sequences.
- `sheet.dfy` (`Sheet`): the sheet columns as sequences of optional names, pandas
  `dropna()` and `unique()`.
- `shuffle.dfy` (`Shuffling`): `random.shuffle` as the Fisher-Yates walk the Python
  runtime performs. The random picks are a parameter. The module proves that the picks
  yield exactly the reorderings of the list.
- `draw.dfy` (`RoundDraw`): pairing, free team, truncation, sport assignment, the whole
  draw, and its lemmas.
- `sport_map.dfy` (`SportMap`): the `pairing_sports` dictionary. Nothing reads it.
- `sheet_draw.dfy` (`SheetDraw`): the button end to end, from sheet columns and picks
  to the table.

Facts about the code that shape the model:
- Surplus pairings are cut off, not cycled through the sports (lines 47-49). Their
  teams get no match and are not reported as free.
- With no teams or no sports the table is empty, and a lone team is still free
  (lines 38-49).
- The repository has no standings, scoring or match history; the results section
  (lines 67-70) only says "Coming soon!".

Two behaviours of the code are shown by witness lemmas rather than corrected, since
the code gives no sign that either was meant otherwise:
- The draw does not remove duplicates from the sheet, unlike the registered-names
  list. A team listed twice can therefore be drawn against itself
  (`SheetDraw.RepeatedTeamCanMeetItself`). When each team is listed once this
  cannot happen (`SheetDraw.ListedOnceDrawnOnce`).
- The keys of the unused `pairing_sports` dictionary can collide when a team name
  contains " vs " (`SportMap.KeysCanCollide`).

## Model

| member | source | states |
|---|---|---|
| Sheet.DropNa | streamlit_app.py:30-31 | a name is in the result iff the column has it, and it occurs as often as the column lists it; the order is fixed by the two lemmas below |
| Sheet.DropNaCell | streamlit_app.py:30-31 | `dropna()` of one cell is its name when present and nothing when missing |
| Sheet.DropNaConcat | streamlit_app.py:30-31 | `dropna()` of two stacked parts of a column is the dropna of the upper part followed by that of the lower, so cells keep column order |
| Sheet.Unique | streamlit_app.py:77-78 | `unique()` keeps each element once, loses none, and orders them by first occurrence in the input |
| Sheet.RegisteredNames | streamlit_app.py:77-78 | the registered-names list has no duplicates, holds exactly the non-missing names of the column, and keeps the sheet's first-occurrence order |
| Shuffling.ValidPicks | streamlit_app.py:34-35 | the values `randbelow(i + 1)` can return: one pick per index i, each in [0, i] |
| Shuffling.Swap | streamlit_app.py:34-35 | one shuffle step exchanges two positions, leaves the others alone, and keeps the multiset of elements |
| Shuffling.ShuffleBelow | streamlit_app.py:34-35 | the shuffle steps below index i keep the list's length and multiset, and leave positions from i on unchanged |
| Shuffling.Shuffle | streamlit_app.py:34-35 | a shuffled list is a reordering of its input: same length, same multiset |
| Shuffling.PicksFor | streamlit_app.py:34-35 | for two lists that agree from i on and hold the same elements below i, some valid picks make the shuffle steps turn the first into the second |
| Shuffling.EveryReorderingReachable | streamlit_app.py:34-35 | every reordering of a list is the outcome of the shuffle for some valid picks |
| RoundDraw.PairAdjacent | streamlit_app.py:40 | on an even-length list, pairing i is the teams at positions 2i and 2i+1, giving half as many pairings as teams |
| RoundDraw.PlayersOfPairAdjacent | streamlit_app.py:40 | flattening the adjacent pairing gives the team list back, so every position is in exactly one pairing |
| RoundDraw.PairAdjacentOfPlayers | streamlit_app.py:40 | pairing up the flattened teams of any list of pairings gives that list back |
| RoundDraw.PairTeams | streamlit_app.py:38-45 | before truncation there are n/2 pairings; there is a free team exactly when n is odd, and it is the last team |
| RoundDraw.PairTeamsPartition | streamlit_app.py:38-45 | the untruncated pairings, flattened and followed by the free team, are exactly the shuffled team list |
| RoundDraw.Truncate | streamlit_app.py:47-49 | the kept pairings are the prefix of length min(pairings, sports) |
| RoundDraw.Zip | streamlit_app.py:56-57 | `zip` yields min of both lengths rows, and row i combines pairing i with sport i |
| RoundDraw.Draw | streamlit_app.py:37-57 | min(n/2, sports) pairings, pairing i being teams 2i and 2i+1; a free team iff n is odd, the last team; row i is pairing i with sport i |
| RoundDraw.Dropped | streamlit_app.py:47-49 | the kept pairings followed by the dropped ones are the untruncated pairings; some are dropped iff there are fewer sports than n/2 |
| RoundDraw.AnnouncedFree | streamlit_app.py:63-65 | the free-team line is shown only for a free team with a non-empty name, and then names that team |
| RoundDraw.FreeTeamAnnounced | streamlit_app.py:42-65 | with an odd count and a non-empty last name the line names the last shuffled team; with an even count there is no line |
| RoundDraw.NoMatchWithoutTwoTeamsAndASport | streamlit_app.py:38-49 | with at most one team or no sport there are no pairings and no rows, but a single team is still the free team |
| RoundDraw.DrawPartition | streamlit_app.py:37-49 | the playing teams, the teams of dropped pairings and the free team, in that order, are exactly the shuffled team list; the playing teams are its prefix |
| RoundDraw.RowPositions | streamlit_app.py:40-57 | row i holds the shuffled teams at positions 2i and 2i+1 |
| RoundDraw.DistinctTeamsNeverDrawnTwice | streamlit_app.py:40-57 | with distinct team names, the two teams of a row differ, no two rows share a team, and the free team is in no row |
| RoundDraw.DroppedTeamsIdle | streamlit_app.py:47-65 | with distinct team names, a team of a dropped pairing is in no row and is not the free team |
| RoundDraw.RowsUseSportPrefix | streamlit_app.py:56-57 | the row sports are exactly the first rows-many shuffled sports, in order, so distinct sports are never reused in a round |
| SportMap.MatchKey | streamlit_app.py:52 | the key `f'{team1} vs {team2}'`: team1, then " vs ", then team2 |
| SportMap.DictOf | streamlit_app.py:52 | a dict comprehension has exactly the listed keys, and each key maps to the value written at its last position |
| SportMap.PairingSports | streamlit_app.py:52 | `pairing_sports` has one key "team1 vs team2" per pairing, and a pairing whose key is not reused later maps to its sport |
| SportMap.PairingSportsMatchRows | streamlit_app.py:52-57 | for a drawn round, each pairing whose key is not reused maps to the sport of its table row |
| SportMap.KeysCanCollide | streamlit_app.py:52 | two different pairings can share a key when a team name contains " vs ", leaving one entry for two pairings |
| SheetDraw.ShuffledTeams | streamlit_app.py:30-34 | the shuffled team list holds each name as often as the Teams column lists it |
| SheetDraw.ShuffledSports | streamlit_app.py:31-35 | the shuffled sport list holds each name as often as the Sports column lists it |
| SheetDraw.DrawFromSheet | streamlit_app.py:28-57 | one button press draws min(listed teams / 2, listed sports) pairings, has a free team iff an odd number of teams is listed, and uses only names present in the columns |
| SheetDraw.NoTeamInventedOrLost | streamlit_app.py:30-49 | the playing teams, the teams of dropped pairings and the free team use each name exactly as often as the sheet lists it |
| SheetDraw.ListedOnceDrawnOnce | streamlit_app.py:30-57 | if the sheet lists each team once, no team is drawn twice and the free team does not play; if it lists each sport once, no sport repeats |
| SheetDraw.EveryOrderingDrawable | streamlit_app.py:30-57 | for any reordering of the listed teams and sports, some picks make the button draw on exactly that ordering |
| SheetDraw.RepeatedTeamCanMeetItself | streamlit_app.py:30-44 | a team listed twice in the sheet can be drawn against itself, because the draw does not remove duplicates |

## Left out

- The Streamlit page is left out: page setup, header, buttons, the table widget,
  columns and HTML layout (streamlit_app.py lines 14-25, 60-61, 68-141). It is
  rendering only. The draw is modelled as the value the table shows.
- The Google Sheets connection and read (lines 10-11) are left out as external I/O.
  The two columns are parameters of type `seq<Option<string>>`.
- The randomness of `random.shuffle` is left out. The random picks are
  caller-supplied, and the model proves that they produce exactly the reorderings
  of the list. Uniformity of the distribution is not modelled.
- Cells are modelled as strings. A sheet cell that pandas reads as a number, and
  Python truthiness of non-string values in `if free_team:`, are not modelled.
- Team and sport images are left out: the PIL loading and its exception handling
  (lines 90-99, 124-136). So is utils.py (`get_team_picture`, `get_sport_picture`),
  a fixed table of asset paths whose lookup raises `KeyError` for an unknown name.
- Standings, scoring, match history and round phases are left out because the
  repository has no code for them (lines 67-70 only say "Coming soon!").
