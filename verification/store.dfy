/** The tournament database as an in-memory store: the players and matches
    tables and the serial sequence that numbers players, with the
    operations of tournament.py that change them. */
module Store {
  import opened Records
  import opened Queries
  import opened Rounds

  class TournamentStore {
    /** The players table, in insertion order. */
    var players: seq<Player>
    /** The matches table, in insertion order. */
    var matches: seq<Match>
    /** The next value of the serial sequence behind players.id. */
    var nextId: int

    /** Ids are handed out in increasing order and all lie below the next
        value of the sequence; in particular no two players share an id. */
    ghost predicate Valid()
      reads this
    {
      && (forall i, j :: 0 <= i < j < |players| ==> players[i].id < players[j].id)
      && (forall i :: 0 <= i < |players| ==> players[i].id < nextId)
    }

    /** A freshly created database: both tables empty, the serial at 1. */
    constructor ()
      ensures Valid()
      ensures players == [] && matches == [] && nextId == 1
    {
      players := [];
      matches := [];
      nextId := 1;
    }

    /** deleteMatches: empty the matches table; players stay. */
    method DeleteMatches()
      requires Valid()
      modifies this`matches
      ensures Valid()
      ensures matches == []
      ensures players == old(players) && nextId == old(nextId)
    {
      matches := [];
    }

    /** deletePlayers: empty the players table, and through the cascade the
        matches table too. Truncation does not restart the serial sequence. */
    method DeletePlayers()
      requires Valid()
      modifies this`players, this`matches
      ensures Valid()
      ensures players == [] && matches == []
      ensures nextId == old(nextId)
    {
      players := [];
      matches := [];
    }

    /** countPlayers: the number of registered players. */
    method CountPlayers() returns (n: nat)
      ensures n == |players|
    {
      n := |players|;
    }

    /** registerPlayer: add one player under the next serial id, an id no
        registered player has. The name need not be unique. */
    method RegisterPlayer(name: string)
      requires Valid()
      modifies this`players, this`nextId
      ensures Valid()
      ensures players == old(players) + [Player(old(nextId), name)]
      ensures forall p :: p in old(players) ==> p.id != old(nextId)
      ensures matches == old(matches)
    {
      players := players + [Player(nextId, name)];
      nextId := nextId + 1;
    }

    /** reportMatch: record one match; a bye has no loser. */
    method ReportMatch(winner: int, loser: Option<int>)
      requires Valid()
      modifies this`matches
      ensures Valid()
      ensures matches == old(matches) + [Match(winner, loser)]
      ensures players == old(players) && nextId == old(nextId)
    {
      matches := matches + [Match(winner, loser)];
    }

    /** swissPairings, as documented. `standings` is what the standings view
        returns: unique ids, most wins first. With an odd field the first
        player in ranked order without a bye gets one, recorded as a match
        with no loser, and leaves the pool. Then, while players remain, the
        first remaining player is paired with their top unplayed opponent and
        both leave the pool. The result is the round that Round describes,
        and the matches table gains exactly the bye records of that round. */
    method SwissPairings(standings: seq<Standing>) returns (r: Result<seq<Pairing>, PairingError>)
      requires Valid()
      requires UniqueIds(standings) && SortedByWins(standings)
      modifies this`matches
      ensures Valid()
      ensures matches == old(matches) + ByeRecords(standings, old(matches))
      ensures r == Round(standings, old(matches))
      ensures players == old(players) && nextId == old(nextId)
    {
      var paired: seq<int> := [];
      var pool := standings;
      ghost var bye: Option<nat> := None;
      if |pool| % 2 != 0 {
        // the players who already had a bye
        var withByes := ByeWinners(matches);
        var i := 0;
        while i < |pool|
          invariant 0 <= i <= |pool|
          invariant pool == standings && paired == [] && matches == old(matches) && bye == None
          invariant Valid()
          invariant forall j :: 0 <= j < i ==> standings[j].id in withByes
        {
          var player := pool[i];
          if player.id !in withByes {
            assert ByeIndex(standings, matches) == Some(i);
            ReportMatch(player.id, None);
            paired := paired + [player.id];
            pool := Without(pool, i);
            bye := Some(i);
            break;
          }
          i := i + 1;
        }
      }
      assert bye == ByeRecipient(standings, old(matches));
      if bye.Some? {
        var k := bye.value;
        assert pool == Without(standings, k) && paired == [standings[k].id];
        assert matches == old(matches) + [Match(standings[k].id, None)];
        RoundWithBye(standings, old(matches), k);
      } else {
        assert pool == standings && paired == [] && matches == old(matches);
        RoundWithoutBye(standings, old(matches));
      }
      r := PairOff(standings, matches, pool, paired);
    }
  }

  /** After registerPlayer, countPlayers reports one more player. */
  method CountAfterRegister(store: TournamentStore, name: string) returns (before: nat, after: nat)
    requires store.Valid()
    modifies store
    ensures store.Valid()
    ensures before == old(|store.players|) && after == |store.players|
    ensures after == before + 1
  {
    before := store.CountPlayers();
    store.RegisterPlayer(name);
    after := store.CountPlayers();
  }
}
