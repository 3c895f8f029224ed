# Swiss-system tournament: standings and pairings

This project models the core of `tournament.py`, a small Swiss-system
tournament tracker. The tracker stores players and their win/match counters.
It ranks players by wins. It pairs each player with a neighbour in that ranking
for the next round.

The model has four modules:

- `Standings` (`standings.dfy`): the stored state and the calls that change it.
  The players table and the standings table are folded into one map from
  player id to `Record(name, wins, matches)`. This relies on the schema's
  one-standings-row-per-player invariant. The map is kept with the next value
  of the id serial. `RegisterPlayer`, `ReportMatch`, `DeleteMatches`,
  `DeletePlayers` and `CountPlayers` are pure transitions over it. Each SQL
  statement is modelled by its effect. The state invariant `Valid` says ids
  come from the serial and `wins <= matches`. Every history of calls preserves it.
- `Ranking` (`ranking.dfy`): the standings query. `PlayerStandings` returns
  every stored player exactly once, with that player's own record, in
  non-increasing order of wins. The source sorts with `ORDER BY wins DESC`
  and leaves ties to the database, so the contract promises nothing about
  ties. In the implementation, players with equal wins come out in ascending
  id order, but no property depends on that.
- `Pairing` (`pairing.dfy`): `swissPairings`. It walks the standings in
  strides of two and joins the `(id, name)` of rows `2k` and `2k+1` into
  pair `k`. An odd count is refused with `OddPlayerCount`. The source's
  unguarded loop is modelled separately as `PairingsAsWritten` (see Findings).
- `Scenario` (`scenario.dfy`): the first-round example. Four players without
  wins play; the two winners are then paired together, and so are the two
  losers, whatever tie order the database picks.

A stricter design would reject unknown ids and reset the id serial with the
players; the code does neither, and the model follows the code:

- `reportMatch` does not check its ids. An UPDATE on an id with no row changes
  nothing. So reporting an unregistered id leaves that side unchanged instead of
  failing with an unknown-player error. Reporting a player against themself adds
  one win and two matches. The invariant still holds in both cases.
- `deletePlayers` does not reset the id serial, so ids are never reused.
  The model keeps `nextId` across `DeletePlayers`.

## Model

| member | source | states |
|---|---|---|
| Standings.RegisterPlayer | tournament.py:47-62 | the new player gets the next serial id, which no registered player holds, with 0 wins and 0 matches; every other player is unchanged; the player count grows by one; the invariant is kept |
| Standings.ReportMatch | tournament.py:86-99 | with distinct ids the winner gains one win and one match and the loser one match; every other player and the player set are unchanged; unknown ids change nothing; wins never exceed matches afterwards |
| Standings.DeleteMatches | tournament.py:12-19 | every player stays, under the same name, with 0 wins and 0 matches |
| Standings.DeletePlayers | tournament.py:22-30 | no players remain, the count is 0, and the id serial is not reset |
| Standings.CountPlayers | tournament.py:34-45 | the number of registered players; it is 0 exactly when no player is registered |
| Standings.ReplayPreservesValid | tournament.py:12-99 | any sequence of register, report and delete calls keeps ids below the serial and wins at most matches for every player |
| Standings.ReachableIsValid | tournament.py:12-99 | every state reachable from an empty database satisfies that invariant |
| Ranking.Insert | tournament.py:80 | placing a row into a list ordered by descending wins keeps the order and adds exactly that row's id |
| Ranking.PlayerStandings | tournament.py:65-84 | the result lists every registered player exactly once, each row carrying that player's stored name, wins and matches, ordered non-increasing by wins |
| Ranking.ComputeStandings | tournament.py:65-84 | the standings a caller receives list every stored player exactly once with that player's own record, ordered non-increasing by wins |
| Ranking.StandingsAfterReset | tournament.py:12-19 | after the match records are wiped, the standings still list exactly the same players, all at 0 wins and 0 matches |
| Pairing.Entrants | tournament.py:124 | keeps the id and name of each standings row, one entry per row, in the same order |
| Pairing.SwissPairings | tournament.py:102-134 | an odd number of rows fails with OddPlayerCount and nothing else does; otherwise there are n/2 pairs and pair k is the id and name of rows 2k and 2k+1, in that order |
| Pairing.AdjacentPairingPartitions | tournament.py:105-133 | when the rows have distinct ids, every id appears in exactly one pair, no pair holds one player twice, and no one outside the standings appears |
| Pairing.AdjacentPairingFollowsRanking | tournament.py:105-108 | each pair's first player has at least the wins of its second, and every pair has at least the wins of any later pair |
| Pairing.StandingsCount | tournament.py:34-45 | the number of standings rows equals the registered player count, so that count may serve as the loop bound |
| Pairing.ComputePairings | tournament.py:117-134 | pairing the stored players fails exactly when their count is odd; otherwise it covers every registered player exactly once and seats the player with more or equal wins first |
| Pairing.PairingsAsWritten | tournament.py:129-133 | reads rows index and index+1 while index is below the count, with no bound check on index+1: with one row left it raises IndexError, and a returned round seats every remaining row, two per pair |
| Pairing.OddCountRaisesIndexError | tournament.py:129-133 | the loop as written, given an odd row count, reads one past the end and raises instead of returning a round |
| Pairing.EvenCountAsWrittenPairsAdjacent | tournament.py:124-134 | the loop as written, given an even row count, returns exactly the adjacent pairing |
| Scenario.WinnersMeetWinners | tournament.py:105-108 | with four players where a beat b and c beat d, every tie order of the standings pairs a with c and b with d |
| Scenario.MoreWinsComesFirst | tournament.py:80 | in standings ordered by descending wins, a player with strictly more wins is listed strictly earlier |
| Scenario.PlayFirstRound | tournament.py:86-97 | from four players at no wins, reporting a beats b and c beats d leaves a and c at one win and b and d at none, with the same four players |
| Scenario.FirstRoundScenario | tournament.py:86-134 | four players at no wins, after a beats b and c beats d, are paired a with c and b with d |

## Left out

- Database connections, cursors, commit and close, including `countPlayers`
  never closing its connection (tournament.py:7-9, 34-45). These are I/O with no
  effect on the modelled state.
- Standings.RegisterPlayer: a repeated name is not modelled. The source finds
  the new id with a name-based scalar subquery (tournament.py:60). With a
  repeated name that subquery returns two rows, which PostgreSQL always
  rejects, so the call raises before the commit (tournament.py:61). The INSERT
  of tournament.py:59 is rolled back and no one is registered, although the
  serial value is used up. The model registers the player anyway, attaching
  the 0/0 record to the id the serial just assigned.
- Ids and counters are unbounded in the model (`PlayerId`, `wins`, `matches`
  and `nextId` are `nat`). The database's serial is 32-bit and its counters
  are integer columns, so past 2147483647 the database raises instead.
- The order among players with equal wins. The database chooses it. The
  contracts speak only of non-increasing wins plus the permutation property.
- The separate `SELECT count(*) FROM standings` used as the loop bound
  (tournament.py:119-120, 129-130). It is modelled as the length of the
  standings list. Folding the players and standings tables into one map is
  what makes that count equal to the number of players; `Pairing.StandingsCount`
  then relates the standings length to `CountPlayers`.
- Concurrent calls and transaction isolation. The model is single-threaded.
- The `__main__` block and its print (tournament.py:137-139).
- Rematch avoidance and byes for odd counts. The source has neither.

## Findings

| source | as written | input that shows it | evidently intended | confidence | as-written member | corrected member |
|---|---|---|---|---|---|---|
| tournament.py:129-131 | the loop runs while `index` is below the row count and reads `list_tuples[index + 1]` without checking it exists | three registered players: the second iteration reads position 3 of a 3-element list and raises IndexError | an odd player count is refused with an explicit error; the docstring at line 105 assumes an even count but nothing enforces it | medium; not executed | Pairing.OddCountRaisesIndexError | Pairing.SwissPairings |
