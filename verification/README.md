# Swiss-system tournament pairing, modelled in Dafny

`vagrant/tournament/tournament.py` keeps a Swiss-system tournament in a
PostgreSQL database. There is a players table, a matches table and a
standings view, and a set of functions over them:
- register, count and delete players;
- report and delete matches;
- `checkRematch`, which says whether two players have met;
- `topOpponent`, which picks a player's opponent;
- `swissPairings`, which builds the next round.

As documented, `swissPairings` works in two steps:
1. With an odd number of players, it first awards a bye to the highest-ranked player who has not had one. A bye is recorded as a match with no loser.
2. It then walks the standings in rank order. Each player still unpaired meets their top unplayed opponent.

As written, the code departs from this in three places (see Findings): the bye test, the walk, and the `topOpponent` query.

This project models the database as an in-memory store and proves what the
pairing promises. The files are:
- `records.dfy` (module `Records`): the rows as values, plus operations on sequences of standings rows. Those operations cover dropping a row, scanning for the first row a filter accepts, and the rows of unpaired players.
- `queries.dfy` (module `Queries`): `checkRematch`; `topOpponent`, both as its SQL is written and as documented (the top *unplayed* opponent); the lookup of who already had a bye.
- `rounds.dfy` (module `Rounds`): the pairing engine of `swissPairings` as documented.
  - The functions `Greedy` and `Round` specify the result of a round.
  - The methods `PairOff` and `DropId` are the loops of the source, proved against those functions.
  - Lemmas give coverage, absence of rematches, rank order and the shape of a first round.
- `store.dfy` (module `Store`): class `TournamentStore`, holding the players and matches tables and the serial counter behind player ids. Its methods are the store operations, including `SwissPairings`, which records the bye and pairs the round.
- `as_written.dfy` (module `AsWritten`): the three places where the code does not do what its comments say. Each is stated as written, with an input that shows the difference (see Findings).

The standings are an input, not recomputed: the view definition is not part of
this model. They are taken to have unique ids and to be sorted by wins, most
first. Ties keep the order in which they are given. A bye is a match whose loser
is `None`. Where the SQL compares against a NULL loser, the model follows SQL's
three-valued logic: `x NOT IN (winner, NULL)` is never true, so a bye row never
passes `topOpponent`'s subqueries.

Edge cases of the model, which follows the documented behaviour with the
corrections stated in `AsWritten`:
- A player with no unplayed opponent left makes the round fail (`NoOpponent`). The code indexes an empty result there. It does not fall back to a rematch.
- With line 135's membership test as intended, an odd field in which everybody already had a bye gets no bye, and the round fails. As written, the leader gets another bye.
- Zero players pair to an empty round, not an error.
- In a first round with an odd field, the leader gets the bye: the comment at line 133 gives it to the highest-ranked player without one.

## Model

| member | source | states |
|---|---|---|
| Queries.CheckRematchIff | vagrant/tournament/tournament.py:156-172 | checkRematch(a, b) holds exactly when some recorded match has a and b as winner and loser, in either order |
| Queries.CheckRematchSymmetric | vagrant/tournament/tournament.py:163-172 | checkRematch(a, b) == checkRematch(b, a) |
| Queries.ByeIsNoRematch | vagrant/tournament/tournament.py:163-165 | appending a bye record (no loser) never changes whether two players have met |
| Queries.TopOpponent | vagrant/tournament/tournament.py:189-205 | as written: the row returned is in the standings, not in `paired`, not player1, and seen in a match without player1; no row exactly when no standings row passes that filter (where `fetchall()[0]` raises) |
| Queries.TopOpponentIs | vagrant/tournament/tournament.py:189-204 | the first standings row, in ranked order, that passes the written filter is the one returned |
| Queries.TopOpponentHasMostWins | vagrant/tournament/tournament.py:189-204 | on sorted standings the returned row has the most wins among rows passing the filter |
| Queries.TopUnplayedOpponent | vagrant/tournament/tournament.py:174-188 | as documented: the row returned is unpaired and has never met player1, and is not player1 once player1 is in `paired`; no row exactly when no unpaired row is unplayed |
| Queries.TopUnplayedOpponentIs | vagrant/tournament/tournament.py:174-188 | the first unpaired, unplayed row in ranked order is the one returned |
| Queries.TopUnplayedOpponentHasMostWins | vagrant/tournament/tournament.py:174-188 | on sorted standings the top unplayed opponent has the most wins among unpaired players player1 has not met |
| Queries.ByeWinners | vagrant/tournament/tournament.py:126-132 | w is listed exactly when a bye record (w, no loser) is in the matches table |
| Queries.ByeIndex | vagrant/tournament/tournament.py:124-139 | the bye goes to the first player in ranked order without a bye record; all earlier players have one; none exactly when every player has one |
| Queries.ByeGoesToHighestRanked | vagrant/tournament/tournament.py:133-135 | on sorted standings the bye recipient has the most wins among players without a bye |
| Rounds.ByeRecipient | vagrant/tournament/tournament.py:123-139 | a bye is handed out only with an odd number of players, and to a player of the standings |
| Rounds.GreedyCovers | vagrant/tournament/tournament.py:141-150 | a successful pairing pass pairs every player of the pool exactly once: half as many pairs as players, no id twice, exactly the pool's ids |
| Rounds.GreedyNeverRematches | vagrant/tournament/tournament.py:141-146 | every pair of a successful pass joins two different players who have never met |
| Rounds.GreedyFailsOnOddPool | vagrant/tournament/tournament.py:141-146 | an odd pool cannot be paired off: the pass ends in the no-opponent error |
| Rounds.GreedyFollowsRanking | vagrant/tournament/tournament.py:142-146 | pair k of a successful pass is the highest-ranked player still unpaired after pairs 0..k-1, with that player's top unplayed opponent |
| Rounds.RoundFollowsRanking | vagrant/tournament/tournament.py:123-146 | in a successful round, once the bye recipient (if any) and pairs 0..k-1 are taken, pair k is the highest-ranked player still unpaired with that player's top unplayed opponent |
| Rounds.GreedyPairsNeighbours | vagrant/tournament/tournament.py:106-109 | when no two unpaired players have met, an even pool is paired between standings neighbours: first with second, third with fourth, and so on |
| Rounds.RoundEven | vagrant/tournament/tournament.py:103-122 | with an even field no bye is recorded, and a successful round has n/2 pairs covering every player exactly once |
| Rounds.RoundOdd | vagrant/tournament/tournament.py:123-150 | with an odd field and a player without a bye: exactly one bye record, for the first such player in ranked order; the other players are each paired exactly once |
| Rounds.RoundOddAllByesFails | vagrant/tournament/tournament.py:123-146 | with an odd field in which everybody already had a bye, nothing is recorded and the round fails |
| Rounds.RoundNeverRematches | vagrant/tournament/tournament.py:103-151 | a successful round never pairs two players who have met, nor a player with themself |
| Rounds.RoundPairsNeighboursWhenFresh | vagrant/tournament/tournament.py:103-151 | when nobody has met and an odd field still has a player without a bye, the round succeeds and pairs standings neighbours, leaving out the bye recipient |
| Rounds.FirstRound | vagrant/tournament/tournament.py:103-151 | in a first round an even field is paired neighbour with neighbour; in an odd field the leader gets the bye and the others are paired the same way |
| Rounds.PairOff | vagrant/tournament/tournament.py:141-151 | the pairing loop returns exactly the result of the specified greedy pass, the error included |
| Rounds.DropId | vagrant/tournament/tournament.py:148-150 | the inner loop leaves the remaining rows minus the opponent's, order kept |
| Store.TournamentStore.DeleteMatches | vagrant/tournament/tournament.py:14-20 | the matches table is empty; players and the id counter are unchanged |
| Store.TournamentStore.DeletePlayers | vagrant/tournament/tournament.py:22-34 | both tables are empty (the cascade); the id counter is not reset; the store stays valid |
| Store.TournamentStore.CountPlayers | vagrant/tournament/tournament.py:38-45 | returns the number of registered players |
| Store.TournamentStore.RegisterPlayer | vagrant/tournament/tournament.py:49-62 | appends one player under an id no registered player has, any name allowed; matches unchanged; ids stay increasing |
| Store.TournamentStore.ReportMatch | vagrant/tournament/tournament.py:89-101 | appends exactly one match record; players unchanged |
| Store.TournamentStore.SwissPairings | vagrant/tournament/tournament.py:103-151 | returns the specified round for the standings and the match history, and appends exactly that round's bye record, if any; players unchanged |
| Store.CountAfterRegister | vagrant/tournament/tournament.py:38-62 | the count before is the size of the players table, the count after is its new size, and registering a player makes it one higher |
| AsWritten.ByeIndexAsWritten | vagrant/tournament/tournament.py:133-139 | as written the first player in the standings always gets the bye |
| AsWritten.ByeAsWrittenRepeats | vagrant/tournament/tournament.py:124-139 | three players with a bye on record for the leader: as written the leader gets a second bye, while the documented rule picks the second player |
| AsWritten.SixPlayersAsWritten | vagrant/tournament/tournament.py:141-150 | six players, first round, with each opponent chosen as documented (the top unplayed one) so that only the walk differs: the loop as written returns the pairs (1st, 2nd) and (4th, 3rd) and leaves the 5th and 6th unpaired; the documented pass returns three neighbour pairs |
| AsWritten.TopOpponentFailsInFirstRound | vagrant/tournament/tournament.py:189-203 | with no game on record the written query finds no row, so pairing raises, while a top unplayed opponent exists |
| AsWritten.TopOpponentOffersRematch | vagrant/tournament/tournament.py:174-201 | a beat b and b beat c: the written query offers a the rematch with b; the top unplayed opponent is c |

## Left out

- Database I/O: connections, cursors, commit and close, and the SQL text. The tables are in-memory sequences, and each call works on one consistent state.
- The standings view (not shown) and `playerStandings`, which only reads it: the standings are a parameter. Their ids are taken to be unique, and `SwissPairings` also asks for them to be sorted by wins. Wins are not recomputed from matches. Ties are ordered as given.
- `swissPairingsNew`, a stub that returns the standings.
- The debug `print` in `checkRematch` and the string-built SQL in it.
- The literal string `'NULL'` passed as the bye's loser: a bye is a match with no loser.
- The schema's keys and constraints (not shown). `ReportMatch` accepts any ids, as the Python code does.
- Transactions and concurrency: the code is sequential.
- Store.TournamentStore.SwissPairings: models the documented pairing, not the code as written. The three differences are stated in module `AsWritten`, and the store uses the corrected behaviour.
- Integer width of the serial ids: ids are unbounded integers.

## Findings

| source | as written | input that shows it | evidently intended | confidence | as-written member | corrected member |
|---|---|---|---|---|---|---|
| vagrant/tournament/tournament.py:133-139 | `player[0] not in playersWithByes` tests an id against one-column result rows, so it is always true and the first player always gets the bye | three players, a bye already on record for the leader | the highest-ranked player without a bye gets it | not executed | AsWritten.ByeAsWrittenRepeats | Queries.ByeIndex |
| vagrant/tournament/tournament.py:141-150 | rows are removed from `standings` while a `for` loop walks it by position, so the walk passes over players | six players, first round, with the opponent chosen as documented (with the written query this input raises first, see the last row): pairs (1st, 2nd) and (4th, 3rd); 5th and 6th unpaired | every player paired exactly once | not executed | AsWritten.SixPlayersAsWritten | Rounds.GreedyCovers |
| vagrant/tournament/tournament.py:189-203 | the query picks players seen in a match that does not involve player1, which can be an opponent already played | a beat b, b beat c: b is offered to a | the top opponent a has not played | not executed | AsWritten.TopOpponentOffersRematch | Queries.TopUnplayedOpponent |
| vagrant/tournament/tournament.py:189-203 | with no game on record the query returns no row and `fetchall()[0]` raises, so no first round can be paired | any field of two or more players, empty matches table | the first round pairs neighbours | not executed | AsWritten.TopOpponentFailsInFirstRound | Rounds.FirstRound |
