/** The read-only queries of tournament.py over the matches table and the
    standings view: checkRematch, topOpponent and the lookup of the players
    who already had a bye. */
module Queries {
  import opened Records

  // ---------------------------------------------------------------------
  // checkRematch
  // ---------------------------------------------------------------------

  /** The WHERE clause of checkRematch: the match has the two players as
      winner and loser, in either order. A bye (NULL loser) never matches. */
  predicate Between(m: Match, a: int, b: int) {
    (m.loser == Some(a) && m.winner == b) || (m.loser == Some(b) && m.winner == a)
  }

  /** `select count(*) from matches where ...` of checkRematch. */
  function RematchCount(matches: seq<Match>, a: int, b: int): nat {
    if matches == [] then 0
    else (if Between(matches[0], a, b) then 1 else 0) + RematchCount(matches[1..], a, b)
  }

  /** checkRematch: whether the two players have met before (the count is at
      least one). */
  function CheckRematch(matches: seq<Match>, player1: int, player2: int): bool {
    RematchCount(matches, player1, player2) >= 1
  }

  /** checkRematch(a, b) holds exactly when some recorded match has a and b
      as winner and loser, in either order. */
  lemma {:induction false} CheckRematchIff(matches: seq<Match>, a: int, b: int)
    ensures CheckRematch(matches, a, b) <==> exists i :: 0 <= i < |matches| && Between(matches[i], a, b)
    decreases |matches|
  {
    if matches != [] {
      CheckRematchIff(matches[1..], a, b);
      if exists i :: 0 <= i < |matches| && Between(matches[i], a, b) {
        var i :| 0 <= i < |matches| && Between(matches[i], a, b);
        if i > 0 {
          assert Between(matches[1..][i - 1], a, b);
        }
      }
      if exists i :: 0 <= i < |matches[1..]| && Between(matches[1..][i], a, b) {
        var i :| 0 <= i < |matches[1..]| && Between(matches[1..][i], a, b);
        assert Between(matches[i + 1], a, b);
      }
    }
  }

  /** The order of the two players does not matter. */
  lemma {:induction false} CheckRematchSymmetric(matches: seq<Match>, a: int, b: int)
    ensures CheckRematch(matches, a, b) == CheckRematch(matches, b, a)
  {
    CheckRematchIff(matches, a, b);
    CheckRematchIff(matches, b, a);
    assert forall m :: Between(m, a, b) == Between(m, b, a);
  }

  /** Recording a bye never makes two players count as having met. */
  lemma ByeIsNoRematch(matches: seq<Match>, w: int, a: int, b: int)
    ensures CheckRematch(matches + [Match(w, None)], a, b) == CheckRematch(matches, a, b)
  {
    var m' := matches + [Match(w, None)];
    CheckRematchIff(matches, a, b);
    CheckRematchIff(m', a, b);
    if exists i :: 0 <= i < |m'| && Between(m'[i], a, b) {
      var i :| 0 <= i < |m'| && Between(m'[i], a, b);
      assert i < |matches| && Between(matches[i], a, b);
    }
    if exists i :: 0 <= i < |matches| && Between(matches[i], a, b) {
      var i :| 0 <= i < |matches| && Between(matches[i], a, b);
      assert Between(m'[i], a, b);
    }
  }

  // ---------------------------------------------------------------------
  // topOpponent, as its query is written
  // ---------------------------------------------------------------------

  /** `player1 not in (winner, loser)` in the subqueries of topOpponent. The
      test is true only for a match that has a loser and involves neither
      side as player1: with a NULL loser SQL's NOT IN is unknown, so a bye
      never qualifies. */
  predicate Unrelated(m: Match, player1: int) {
    m.loser.Some? && m.winner != player1 && m.loser.value != player1
  }

  /** `id in (select winner ... union select loser ...)`: the player took
      part in some match that does not involve player1. */
  predicate InOtherMatch(matches: seq<Match>, player1: int, id: int) {
    exists i :: 0 <= i < |matches| && Unrelated(matches[i], player1) &&
      (matches[i].winner == id || matches[i].loser == Some(id))
  }

  /** The filter of topOpponent's query as written: not paired yet, and seen
      in a match without player1. */
  predicate Eligible(matches: seq<Match>, player1: int, paired: seq<int>, s: Standing) {
    s.id !in paired && InOtherMatch(matches, player1, s.id)
  }

  /** topOpponent as written: the first standings row (most wins first) that
      passes the query's filter; None when the query returns no row, where
      the source's `fetchall()[0]` raises. */
  function TopOpponent(standings: seq<Standing>, matches: seq<Match>, player1: int, paired: seq<int>): (r: Option<Standing>)
    ensures r.Some? ==> r.value in standings && Eligible(matches, player1, paired, r.value)
    ensures r.Some? ==> r.value.id !in paired && r.value.id != player1
    ensures r.None? <==> forall s :: s in standings ==> !Eligible(matches, player1, paired, s)
  {
    match First(standings, s => Eligible(matches, player1, paired, s))
    case None => None
    case Some(k) => Some(standings[k])
  }

  /** The converse: the first row in ranked order that passes the filter is
      the one returned. */
  lemma TopOpponentIs(standings: seq<Standing>, matches: seq<Match>, player1: int, paired: seq<int>, k: nat)
    requires k < |standings| && Eligible(matches, player1, paired, standings[k])
    requires forall j :: 0 <= j < k ==> !Eligible(matches, player1, paired, standings[j])
    ensures TopOpponent(standings, matches, player1, paired) == Some(standings[k])
  {
    var ok := s => Eligible(matches, player1, paired, s);
    var r := First(standings, ok);
    assert ok(standings[k]);
    assert r.Some?;
    assert !(r.value < k) && !(k < r.value);
  }

  /** On sorted standings the row topOpponent returns has the most wins
      among the rows that pass its filter. */
  lemma TopOpponentHasMostWins(standings: seq<Standing>, matches: seq<Match>, player1: int, paired: seq<int>)
    requires SortedByWins(standings)
    requires TopOpponent(standings, matches, player1, paired).Some?
    ensures forall s :: s in standings && Eligible(matches, player1, paired, s) ==>
      s.wins <= TopOpponent(standings, matches, player1, paired).value.wins
  {
    var ok := s => Eligible(matches, player1, paired, s);
    FirstHasMostWins(standings, ok);
    forall s | s in standings && Eligible(matches, player1, paired, s)
      ensures s.wins <= TopOpponent(standings, matches, player1, paired).value.wins
    {
      var j :| 0 <= j < |standings| && standings[j] == s;
      assert ok(standings[j]);
    }
  }

  // ---------------------------------------------------------------------
  // topOpponent, as documented: the top unplayed opponent
  // ---------------------------------------------------------------------

  /** The documented filter of topOpponent: not paired yet in this round and
      never met player1 before (checkRematch is false). */
  predicate Unplayed(matches: seq<Match>, player1: int, paired: seq<int>, s: Standing) {
    s.id !in paired && !CheckRematch(matches, player1, s.id)
  }

  /** The top unplayed opponent of player1: the first standings row (most
      wins first) that is unpaired and has not met player1; None when there
      is none. */
  function TopUnplayedOpponent(standings: seq<Standing>, matches: seq<Match>, player1: int, paired: seq<int>): (r: Option<Standing>)
    ensures r.Some? ==> r.value in standings && r.value.id !in paired
    ensures r.Some? ==> !CheckRematch(matches, player1, r.value.id)
    ensures r.Some? && player1 in paired ==> r.value.id != player1
    ensures r.None? <==> forall s :: s in standings ==> !Unplayed(matches, player1, paired, s)
  {
    match First(standings, s => Unplayed(matches, player1, paired, s))
    case None => None
    case Some(k) => Some(standings[k])
  }

  /** The converse: the first row in ranked order that passes the filter is
      the one returned. */
  lemma TopUnplayedOpponentIs(standings: seq<Standing>, matches: seq<Match>, player1: int, paired: seq<int>, k: nat)
    requires k < |standings| && Unplayed(matches, player1, paired, standings[k])
    requires forall j :: 0 <= j < k ==> !Unplayed(matches, player1, paired, standings[j])
    ensures TopUnplayedOpponent(standings, matches, player1, paired) == Some(standings[k])
  {
    var ok := s => Unplayed(matches, player1, paired, s);
    var r := First(standings, ok);
    assert ok(standings[k]);
    assert r.Some?;
    assert !(r.value < k) && !(k < r.value);
  }

  /** On sorted standings the top unplayed opponent has the most wins among
      the unpaired players that player1 has not met. */
  lemma TopUnplayedOpponentHasMostWins(standings: seq<Standing>, matches: seq<Match>, player1: int, paired: seq<int>)
    requires SortedByWins(standings)
    requires TopUnplayedOpponent(standings, matches, player1, paired).Some?
    ensures forall s :: s in standings && Unplayed(matches, player1, paired, s) ==>
      s.wins <= TopUnplayedOpponent(standings, matches, player1, paired).value.wins
  {
    var ok := s => Unplayed(matches, player1, paired, s);
    FirstHasMostWins(standings, ok);
    forall s | s in standings && Unplayed(matches, player1, paired, s)
      ensures s.wins <= TopUnplayedOpponent(standings, matches, player1, paired).value.wins
    {
      var j :| 0 <= j < |standings| && standings[j] == s;
      assert ok(standings[j]);
    }
  }

  // ---------------------------------------------------------------------
  // byes
  // ---------------------------------------------------------------------

  /** `select winner from matches where loser is null`: the players who
      already had a bye, in table order. */
  function ByeWinners(matches: seq<Match>): (r: seq<int>)
    ensures forall w :: w in r <==> Match(w, None) in matches
  {
    if matches == [] then []
    else (if matches[0].loser.None? then [matches[0].winner] else []) + ByeWinners(matches[1..])
  }

  /** The index in `standings` of the player who gets the bye: the first one
      in ranked order with no bye on record; None when every player already
      had one. */
  function ByeIndex(standings: seq<Standing>, matches: seq<Match>): (r: Option<nat>)
    ensures r.Some? ==> r.value < |standings| && Match(standings[r.value].id, None) !in matches
    ensures r.Some? ==> forall j :: 0 <= j < r.value ==> Match(standings[j].id, None) in matches
    ensures r.None? <==> forall j :: 0 <= j < |standings| ==> Match(standings[j].id, None) in matches
  {
    var withByes := ByeWinners(matches);
    First(standings, (s: Standing) => s.id !in withByes)
  }

  /** On sorted standings the bye goes to a player with the most wins among
      those who have not had one. */
  lemma ByeGoesToHighestRanked(standings: seq<Standing>, matches: seq<Match>)
    requires SortedByWins(standings)
    requires ByeIndex(standings, matches).Some?
    ensures forall j :: 0 <= j < |standings| && Match(standings[j].id, None) !in matches ==>
      standings[j].wins <= standings[ByeIndex(standings, matches).value].wins
  {
  }
}
