/** swissPairings and topOpponent as tournament.py writes them, where that
    differs from what they document: the bye test that never matches, the
    pairing loop that removes rows from the list it walks, and the
    topOpponent query that does not look for unplayed opponents. Each is
    set beside the documented behaviour of the Rounds and Queries modules
    with an input on which the two differ. */
module AsWritten {
  import opened Records
  import opened Queries
  import opened Rounds

  // ---------------------------------------------------------------------
  // The bye
  // ---------------------------------------------------------------------

  /** The bye recipient as written: the query returns one-column rows and
      the loop tests a bare id for membership among them, a test that never
      finds the id, so the first player in the standings gets the bye
      whatever byes are on record. */
  function ByeIndexAsWritten(standings: seq<Standing>): (r: Option<nat>)
    ensures r.Some? <==> standings != []
    ensures r.Some? ==> r.value == 0
  {
    First(standings, (s: Standing) => true)
  }

  /** Three players and a bye already on record for the leader: as written
      the leader gets a second bye; the documented rule gives it to the
      second player, the highest-ranked one without a bye. */
  lemma ByeAsWrittenRepeats(standings: seq<Standing>)
    requires UniqueIds(standings) && |standings| == 3
    ensures var matches := [Match(standings[0].id, None)];
      && ByeIndexAsWritten(standings) == Some(0)
      && Match(standings[0].id, None) in matches
      && ByeIndex(standings, matches) == Some(1)
  {
    var matches := [Match(standings[0].id, None)];
    assert Match(standings[1].id, None) !in matches;
    assert Match(standings[0].id, None) in matches;
  }

  // ---------------------------------------------------------------------
  // The pairing loop
  // ---------------------------------------------------------------------

  /** The pairing loop as written. Python walks the list by position while
      the body removes the current player and their opponent from it, so
      after each step the walk moves on one position in a list that has
      lost two rows and passes over a player. `i` is the position the walk
      has reached; the opponent is the top unplayed one, as documented, so
      that only the walk differs from Rounds.Greedy. */
  function IterateAsWritten(standings: seq<Standing>, matches: seq<Match>, pool: seq<Standing>, i: nat, paired: seq<int>): Result<seq<Pairing>, PairingError>
    decreases |pool|
  {
    if i >= |pool| then Ok([])
    else
      var player := pool[i];
      var paired1 := paired + [player.id];
      match TopUnplayedOpponent(standings, matches, player.id, paired1)
      case None => Err(NoOpponent(player.id))
      case Some(o) =>
        match IterateAsWritten(standings, matches, RemoveId(Without(pool, i), o.id), i + 1, paired1 + [o.id])
        case Err(e) => Err(e)
        case Ok(rest) => Ok([Pairing(player.id, player.name, o.id, o.name)] + rest)
  }

  /** One step of the walk, unfolded. */
  lemma IterateUnfold(standings: seq<Standing>, matches: seq<Match>, pool: seq<Standing>, i: nat, paired: seq<int>, o: Standing)
    requires i < |pool|
    requires TopUnplayedOpponent(standings, matches, pool[i].id, paired + [pool[i].id]) == Some(o)
    ensures IterateAsWritten(standings, matches, pool, i, paired) ==
      Prepend([Pairing(pool[i].id, pool[i].name, o.id, o.name)],
              IterateAsWritten(standings, matches, RemoveId(Without(pool, i), o.id), i + 1, paired + [pool[i].id] + [o.id]))
  {
  }

  /** With no match on record the top unplayed opponent is the first row
      not yet paired. */
  lemma FirstUnpairedIsTop(standings: seq<Standing>, player1: int, paired: seq<int>, k: nat)
    requires k < |standings| && standings[k].id !in paired
    requires forall j :: 0 <= j < k ==> standings[j].id in paired
    ensures TopUnplayedOpponent(standings, [], player1, paired) == Some(standings[k])
  {
    assert !CheckRematch([], player1, standings[k].id);
    TopUnplayedOpponentIs(standings, [], player1, paired, k);
  }

  /** First step of a six-player first round as written: the leader meets
      the second player and the walk goes on over the last four rows. */
  lemma SixFirstStep(st: seq<Standing>)
    requires UniqueIds(st) && |st| == 6
    ensures IterateAsWritten(st, [], st, 0, []) ==
      Prepend([Pairing(st[0].id, st[0].name, st[1].id, st[1].name)],
              IterateAsWritten(st, [], st[2..], 1, [st[0].id, st[1].id]))
  {
    assert [] + [st[0].id] == [st[0].id];
    assert [] + [st[0].id] + [st[1].id] == [st[0].id, st[1].id];
    FirstUnpairedIsTop(st, st[0].id, [st[0].id], 1);
    IterateUnfold(st, [], st, 0, [], st[1]);
    UniqueTail(st);
    assert st[1..][0] == st[1];
    RemoveIdAt(st[1..], 0);
    assert Without(st, 0) == st[1..];
    assert Without(st[1..], 0) == st[2..];
    assert RemoveId(Without(st, 0), st[1].id) == st[2..];
  }

  /** Second step: the walk is at position 1 of the last four rows, so the
      fourth player leads and meets the third; the two rows left are at
      positions 0 and 1, behind the walk. */
  lemma SixSecondStep(st: seq<Standing>)
    requires UniqueIds(st) && |st| == 6
    ensures IterateAsWritten(st, [], st[2..], 1, [st[0].id, st[1].id]) ==
      Ok([Pairing(st[3].id, st[3].name, st[2].id, st[2].name)])
  {
    var pool := st[2..];
    var paired := [st[0].id, st[1].id];
    assert pool[1] == st[3];
    assert paired + [st[3].id] == [st[0].id, st[1].id, st[3].id];
    FirstUnpairedIsTop(st, st[3].id, paired + [st[3].id], 2);
    IterateUnfold(st, [], pool, 1, paired, st[2]);
    SixLeftBehind(st);
    var tail := IterateAsWritten(st, [], [st[4], st[5]], 2, paired + [st[3].id] + [st[2].id]);
    assert tail == Ok([]);
    PrependNothingAfter(Pairing(st[3].id, st[3].name, st[2].id, st[2].name));
  }

  /** After the second step the rows of the fifth and sixth players remain. */
  lemma SixLeftBehind(st: seq<Standing>)
    requires UniqueIds(st) && |st| == 6
    ensures RemoveId(Without(st[2..], 1), st[2].id) == [st[4], st[5]]
  {
    var rest := Without(st[2..], 1);
    assert rest == [st[2], st[4], st[5]];
    assert rest[1..] == [st[4], st[5]];
    RemoveIdAbsent(rest[1..], st[2].id);
  }

  lemma PrependNothingAfter(x: Pairing)
    ensures Prepend([x], Ok([])) == Ok([x])
  {
    assert [x] + [] == [x];
  }

  /** Six players in a first round: as written the walk stops after two
      pairs and the fifth and sixth players are left out of the round; the
      documented pass pairs all six, neighbour with neighbour. */
  lemma SixPlayersAsWritten(st: seq<Standing>)
    requires UniqueIds(st) && |st| == 6
    ensures IterateAsWritten(st, [], st, 0, []) ==
      Ok([Pairing(st[0].id, st[0].name, st[1].id, st[1].name), Pairing(st[3].id, st[3].name, st[2].id, st[2].name)])
    ensures Round(st, []) == Ok(Neighbours(st)) && |Neighbours(st)| == 3
  {
    var p1 := Pairing(st[0].id, st[0].name, st[1].id, st[1].name);
    var p2 := Pairing(st[3].id, st[3].name, st[2].id, st[2].name);
    SixFirstStep(st);
    SixSecondStep(st);
    assert [p1] + [p2] == [p1, p2];
    RoundPairsNeighboursWhenFresh(st, []);
  }

  // ---------------------------------------------------------------------
  // topOpponent's query
  // ---------------------------------------------------------------------

  /** Before any game has been played (the matches table holds byes at
      most) the query as written returns no row, so the first player to be
      paired raises; the top unplayed opponent exists as soon as some other
      player is unpaired. */
  lemma TopOpponentFailsInFirstRound(standings: seq<Standing>, matches: seq<Match>, player1: int, paired: seq<int>)
    requires forall i :: 0 <= i < |matches| ==> matches[i].loser.None?
    ensures TopOpponent(standings, matches, player1, paired).None?
    ensures (exists s :: s in standings && s.id !in paired) ==>
      TopUnplayedOpponent(standings, matches, player1, paired).Some?
  {
    assert forall i :: 0 <= i < |matches| ==> !Unrelated(matches[i], player1);
    if s :| s in standings && s.id !in paired {
      ByesOnlyNoRematch(matches, player1, s.id);
      assert Unplayed(matches, player1, paired, s);
    }
  }

  lemma ByesOnlyNoRematch(matches: seq<Match>, a: int, b: int)
    requires forall i :: 0 <= i < |matches| ==> matches[i].loser.None?
    ensures !CheckRematch(matches, a, b)
  {
    CheckRematchIff(matches, a, b);
  }

  /** Three players where the leader beat the second and the second beat
      the third: as written the query offers the leader the second player,
      a rematch, because it looks for players seen in a match without the
      leader; the top unplayed opponent is the third player. */
  lemma TopOpponentOffersRematch(standings: seq<Standing>)
    requires UniqueIds(standings) && |standings| == 3
    ensures var a, b, c := standings[0].id, standings[1].id, standings[2].id;
      var matches := [Match(a, Some(b)), Match(b, Some(c))];
      && TopOpponent(standings, matches, a, [a]) == Some(standings[1])
      && CheckRematch(matches, a, b)
      && TopUnplayedOpponent(standings, matches, a, [a]) == Some(standings[2])
  {
    var a, b, c := standings[0].id, standings[1].id, standings[2].id;
    var matches := [Match(a, Some(b)), Match(b, Some(c))];
    assert Unrelated(matches[1], a);
    assert Eligible(matches, a, [a], standings[1]);
    TopOpponentIs(standings, matches, a, [a], 1);
    assert Between(matches[0], a, b);
    CheckRematchIff(matches, a, b);
    CheckRematchIff(matches, a, c);
    assert !Between(matches[0], a, c) && !Between(matches[1], a, c);
    assert Unplayed(matches, a, [a], standings[2]);
    assert !Unplayed(matches, a, [a], standings[1]);
    TopUnplayedOpponentIs(standings, matches, a, [a], 2);
  }
}
