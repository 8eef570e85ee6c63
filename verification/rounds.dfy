/** The pairing engine of swissPairings, as documented: an optional bye for
    an odd field, then a greedy pass that pairs the highest-ranked player
    still unpaired with their top unplayed opponent until nobody is left. */
module Rounds {
  import opened Records
  import opened Queries

  /** The pairings of the players in `pool`. At each step the first row of
      the pool (the highest-ranked unpaired player) is marked paired, gets
      its top unplayed opponent among all standings rows not yet paired, and
      both leave the pool. Fails, as `topOpponent` does, when a player has
      no opponent left. */
  function Greedy(standings: seq<Standing>, matches: seq<Match>, pool: seq<Standing>, paired: seq<int>): Result<seq<Pairing>, PairingError>
    decreases |pool|
  {
    if pool == [] then Ok([])
    else
      var player := pool[0];
      var paired1 := paired + [player.id];
      match TopUnplayedOpponent(standings, matches, player.id, paired1)
      case None => Err(NoOpponent(player.id))
      case Some(o) =>
        match Greedy(standings, matches, RemoveId(pool[1..], o.id), paired1 + [o.id])
        case Err(e) => Err(e)
        case Ok(rest) => Ok([Pairing(player.id, player.name, o.id, o.name)] + rest)
  }

  /** `acc` followed by the pairings of `r`, or the failure of `r`. */
  function Prepend(acc: seq<Pairing>, r: Result<seq<Pairing>, PairingError>): Result<seq<Pairing>, PairingError> {
    match r
    case Err(e) => Err(e)
    case Ok(rest) => Ok(acc + rest)
  }

  lemma PrependNothing(r: Result<seq<Pairing>, PairingError>)
    ensures Prepend([], r) == r
  {
    if r.Ok? {
      assert [] + r.value == r.value;
    }
  }

  lemma PrependTwice(a: seq<Pairing>, b: seq<Pairing>, r: Result<seq<Pairing>, PairingError>)
    ensures Prepend(a, Prepend(b, r)) == Prepend(a + b, r)
  {
    if r.Ok? {
      assert a + (b + r.value) == (a + b) + r.value;
    }
  }

  /** One step of the greedy pass, unfolded. */
  lemma GreedyUnfold(standings: seq<Standing>, matches: seq<Match>, pool: seq<Standing>, paired: seq<int>, o: Standing)
    requires pool != []
    requires TopUnplayedOpponent(standings, matches, pool[0].id, paired + [pool[0].id]) == Some(o)
    ensures Greedy(standings, matches, pool, paired) ==
      Prepend([Pairing(pool[0].id, pool[0].name, o.id, o.name)],
              Greedy(standings, matches, RemoveId(pool[1..], o.id), paired + [pool[0].id] + [o.id]))
  {
  }

  /** Who gets the bye this round: with an odd number of players, the first
      one in ranked order without a bye; otherwise nobody. */
  function ByeRecipient(standings: seq<Standing>, matches: seq<Match>): (r: Option<nat>)
    ensures r.Some? ==> |standings| % 2 == 1 && r.value < |standings|
  {
    if |standings| % 2 != 0 then ByeIndex(standings, matches) else None
  }

  /** The match records a round appends: one bye for the recipient, if any. */
  function ByeRecords(standings: seq<Standing>, matches: seq<Match>): seq<Match> {
    match ByeRecipient(standings, matches)
    case None => []
    case Some(k) => [Match(standings[k].id, None)]
  }

  /** The result of swissPairings on these standings and this match history. */
  function Round(standings: seq<Standing>, matches: seq<Match>): Result<seq<Pairing>, PairingError> {
    match ByeRecipient(standings, matches)
    case None => Greedy(standings, matches, standings, [])
    case Some(k) =>
      Greedy(standings, matches + ByeRecords(standings, matches), Without(standings, k), [standings[k].id])
  }

  lemma RoundWithoutBye(standings: seq<Standing>, matches: seq<Match>)
    requires ByeRecipient(standings, matches).None?
    ensures ByeRecords(standings, matches) == []
    ensures Round(standings, matches) == Greedy(standings, matches, standings, [])
  {
  }

  lemma RoundWithBye(standings: seq<Standing>, matches: seq<Match>, k: nat)
    requires ByeRecipient(standings, matches) == Some(k)
    ensures k < |standings|
    ensures ByeRecords(standings, matches) == [Match(standings[k].id, None)]
    ensures Round(standings, matches) ==
      Greedy(standings, matches + [Match(standings[k].id, None)], Without(standings, k), [standings[k].id])
  {
  }

  /** `pool` holds, once each, exactly the standings rows whose players are
      not paired yet. */
  ghost predicate IsPool(standings: seq<Standing>, pool: seq<Standing>, paired: seq<int>) {
    UniqueIds(pool) && forall s :: s in pool <==> s in standings && s.id !in paired
  }

  /** The opponent of the pool's first player comes from the rest of the
      pool. */
  lemma OpponentInRest(standings: seq<Standing>, pool: seq<Standing>, paired: seq<int>, o: Standing)
    requires IsPool(standings, pool, paired) && pool != []
    requires o in standings && o.id !in paired + [pool[0].id]
    ensures o in pool[1..] && o.id != pool[0].id
  {
    assert o in pool;
    assert pool == [pool[0]] + pool[1..];
  }

  /** One greedy step keeps the pool invariant: the new pool is the old one
      less two players. */
  lemma GreedyStep(standings: seq<Standing>, pool: seq<Standing>, paired: seq<int>, o: Standing)
    requires IsPool(standings, pool, paired) && pool != []
    requires o in standings && o.id !in paired + [pool[0].id]
    ensures o in pool[1..] && o.id != pool[0].id
    ensures IsPool(standings, RemoveId(pool[1..], o.id), paired + [pool[0].id] + [o.id])
    ensures |RemoveId(pool[1..], o.id)| == |pool| - 2
    ensures IdSet(pool) == {pool[0].id, o.id} + IdSet(RemoveId(pool[1..], o.id))
    ensures pool[0].id !in IdSet(RemoveId(pool[1..], o.id))
    ensures o.id !in IdSet(RemoveId(pool[1..], o.id))
  {
    OpponentInRest(standings, pool, paired, o);
    UniqueTail(pool);
    RemoveIdDropsOne(pool[1..], o);
    RemoveIdKeepsUnique(pool[1..], o.id);
    StepMembers(standings, pool, paired, o);
    StepIds(pool, o);
  }

  lemma StepMembers(standings: seq<Standing>, pool: seq<Standing>, paired: seq<int>, o: Standing)
    requires IsPool(standings, pool, paired) && pool != []
    ensures forall s :: s in RemoveId(pool[1..], o.id) <==> s in standings && s.id !in paired + [pool[0].id] + [o.id]
  {
    var p := pool[0];
    UniqueTail(pool);
    forall s ensures s in RemoveId(pool[1..], o.id) <==> s in standings && s.id !in paired + [p.id] + [o.id] {
      if s in standings && s.id !in paired + [p.id] + [o.id] {
        assert s in pool;
        assert pool == [p] + pool[1..];
        assert s in pool[1..];
      }
    }
  }

  lemma StepIds(pool: seq<Standing>, o: Standing)
    requires UniqueIds(pool) && pool != [] && o in pool[1..]
    ensures IdSet(pool) == {pool[0].id, o.id} + IdSet(RemoveId(pool[1..], o.id))
    ensures pool[0].id !in IdSet(RemoveId(pool[1..], o.id))
  {
    var p := pool[0];
    var pool' := RemoveId(pool[1..], o.id);
    UniqueTail(pool);
    assert pool == [p] + pool[1..];
    forall x | x in IdSet(pool) ensures x in {p.id, o.id} + IdSet(pool') {
      var s :| s in pool && s.id == x;
      if s != p && s.id != o.id {
        assert s in pool';
      }
    }
    forall x | x in {p.id, o.id} + IdSet(pool') ensures x in IdSet(pool) {
      if x == p.id {
        assert p in pool;
      } else if x == o.id {
        assert o in pool;
      } else {
        var s :| s in pool' && s.id == x;
        assert s in pool;
      }
    }
  }

  lemma DistinctPrepend(a: int, b: int, t: seq<int>)
    requires a != b && a !in t && b !in t && Distinct(t)
    ensures Distinct([a, b] + t)
  {
    var r := [a, b] + t;
    forall i, j | 0 <= i < j < |r| ensures r[i] != r[j] {
      if j >= 2 {
        assert r[j] == t[j - 2];
        if i >= 2 {
          assert r[i] == t[i - 2];
        }
      }
    }
  }

  /** A successful greedy pass pairs every player of the pool exactly once:
      half as many pairs as players, no id twice, and exactly the pool's
      ids. */
  lemma {:induction false} GreedyCovers(standings: seq<Standing>, matches: seq<Match>, pool: seq<Standing>, paired: seq<int>, ps: seq<Pairing>)
    requires IsPool(standings, pool, paired)
    requires Greedy(standings, matches, pool, paired) == Ok(ps)
    ensures 2 * |ps| == |pool|
    ensures Distinct(PairIds(ps))
    ensures forall x :: x in PairIds(ps) <==> x in IdSet(pool)
    decreases |pool|
  {
    if pool != [] {
      var p := pool[0];
      var opp := TopUnplayedOpponent(standings, matches, p.id, paired + [p.id]);
      assert opp.Some?;
      var o := opp.value;
      var pool' := RemoveId(pool[1..], o.id);
      var paired' := paired + [p.id] + [o.id];
      var ps' := Greedy(standings, matches, pool', paired').value;
      assert ps == [Pairing(p.id, p.name, o.id, o.name)] + ps';
      GreedyStep(standings, pool, paired, o);
      GreedyCovers(standings, matches, pool', paired', ps');
      assert ps[1..] == ps';
      assert PairIds(ps) == [p.id, o.id] + PairIds(ps');
      DistinctPrepend(p.id, o.id, PairIds(ps'));
    }
  }

  /** Every pair of a successful greedy pass joins two different players who
      have never met. */
  lemma {:induction false} GreedyNeverRematches(standings: seq<Standing>, matches: seq<Match>, pool: seq<Standing>, paired: seq<int>, ps: seq<Pairing>)
    requires Greedy(standings, matches, pool, paired) == Ok(ps)
    ensures forall k :: 0 <= k < |ps| ==> ps[k].id1 != ps[k].id2 && !CheckRematch(matches, ps[k].id1, ps[k].id2)
    decreases |pool|
  {
    if pool != [] {
      var p := pool[0];
      var o := TopUnplayedOpponent(standings, matches, p.id, paired + [p.id]).value;
      var pool' := RemoveId(pool[1..], o.id);
      var paired' := paired + [p.id] + [o.id];
      var ps' := Greedy(standings, matches, pool', paired').value;
      assert ps == [Pairing(p.id, p.name, o.id, o.name)] + ps';
      GreedyNeverRematches(standings, matches, pool', paired', ps');
      forall k | 0 <= k < |ps| ensures ps[k].id1 != ps[k].id2 && !CheckRematch(matches, ps[k].id1, ps[k].id2) {
        if k > 0 {
          assert ps[k] == ps'[k - 1];
        }
      }
    }
  }

  lemma TwiceIsEven(n: nat, m: nat)
    requires n == 2 * m
    ensures n % 2 == 0
  {
  }

  lemma OddLessOneIsEven(n: nat)
    requires n % 2 == 1
    ensures (n - 1) % 2 == 0
  {
  }

  /** An odd pool can never be paired off: the last player has no opponent. */
  lemma GreedyFailsOnOddPool(standings: seq<Standing>, matches: seq<Match>, pool: seq<Standing>, paired: seq<int>)
    requires IsPool(standings, pool, paired)
    requires |pool| % 2 == 1
    ensures Greedy(standings, matches, pool, paired).Err?
  {
    var r := Greedy(standings, matches, pool, paired);
    if r.Ok? {
      GreedyCovers(standings, matches, pool, paired, r.value);
      TwiceIsEven(|pool|, |r.value|);
    }
  }

  lemma WholeFieldIsPool(standings: seq<Standing>)
    requires UniqueIds(standings)
    ensures IsPool(standings, standings, [])
  {
  }

  lemma FieldLessByeIsPool(standings: seq<Standing>, k: nat)
    requires UniqueIds(standings) && k < |standings|
    ensures IsPool(standings, Without(standings, k), [standings[k].id])
    ensures IdSet(Without(standings, k)) == IdSet(standings) - {standings[k].id}
  {
    var w := Without(standings, k);
    forall i, j | 0 <= i < j < |w| ensures w[i].id != w[j].id {
      var i' := if i < k then i else i + 1;
      var j' := if j < k then j else j + 1;
      assert w[i] == standings[i'] && w[j] == standings[j'];
    }
    forall s ensures s in w <==> s in standings && s.id !in [standings[k].id] {
      if s in w {
        var i :| 0 <= i < |w| && w[i] == s;
        var i' := if i < k then i else i + 1;
        assert standings[i'] == s;
      }
      if s in standings && s.id != standings[k].id {
        var i :| 0 <= i < |standings| && standings[i] == s;
        assert i != k;
        assert w[if i < k then i else i - 1] == s;
      }
    }
  }

  /** With an even field: no bye is recorded, and a successful round pairs
      every player exactly once, in half as many pairs. */
  lemma RoundEven(standings: seq<Standing>, matches: seq<Match>, ps: seq<Pairing>)
    requires UniqueIds(standings) && |standings| % 2 == 0
    requires Round(standings, matches) == Ok(ps)
    ensures ByeRecords(standings, matches) == []
    ensures 2 * |ps| == |standings|
    ensures Distinct(PairIds(ps))
    ensures forall x :: x in PairIds(ps) <==> x in IdSet(standings)
  {
    WholeFieldIsPool(standings);
    GreedyCovers(standings, matches, standings, [], ps);
  }

  /** With an odd field and some player without a bye: exactly one bye record
      is appended, for the first such player in ranked order, and a
      successful round pairs every other player exactly once. */
  lemma RoundOdd(standings: seq<Standing>, matches: seq<Match>, ps: seq<Pairing>)
    requires UniqueIds(standings) && |standings| % 2 == 1
    requires ByeIndex(standings, matches).Some?
    requires Round(standings, matches) == Ok(ps)
    ensures var k := ByeIndex(standings, matches).value;
      && ByeRecords(standings, matches) == [Match(standings[k].id, None)]
      && Match(standings[k].id, None) !in matches
      && (forall j :: 0 <= j < k ==> Match(standings[j].id, None) in matches)
      && 2 * |ps| + 1 == |standings|
      && Distinct(PairIds(ps))
      && forall x :: x in PairIds(ps) <==> x in IdSet(standings) && x != standings[k].id
  {
    var k := ByeIndex(standings, matches).value;
    FieldLessByeIsPool(standings, k);
    GreedyCovers(standings, matches + ByeRecords(standings, matches), Without(standings, k), [standings[k].id], ps);
  }

  /** With an odd field in which every player already had a bye, no bye is
      recorded and the round fails: the last player is left without an
      opponent. */
  lemma RoundOddAllByesFails(standings: seq<Standing>, matches: seq<Match>)
    requires UniqueIds(standings) && |standings| % 2 == 1
    requires forall j :: 0 <= j < |standings| ==> Match(standings[j].id, None) in matches
    ensures ByeRecords(standings, matches) == []
    ensures Round(standings, matches).Err?
  {
    WholeFieldIsPool(standings);
    GreedyFailsOnOddPool(standings, matches, standings, []);
  }

  /** A successful round never pairs two players who have met before, nor a
      player with themself. */
  lemma RoundNeverRematches(standings: seq<Standing>, matches: seq<Match>, ps: seq<Pairing>)
    requires Round(standings, matches) == Ok(ps)
    ensures forall k :: 0 <= k < |ps| ==> ps[k].id1 != ps[k].id2 && !CheckRematch(matches, ps[k].id1, ps[k].id2)
  {
    match ByeRecipient(standings, matches)
    case None =>
      GreedyNeverRematches(standings, matches, standings, [], ps);
    case Some(k) =>
      var m' := matches + ByeRecords(standings, matches);
      GreedyNeverRematches(standings, m', Without(standings, k), [standings[k].id], ps);
      forall i | 0 <= i < |ps| ensures !CheckRematch(matches, ps[i].id1, ps[i].id2) {
        ByeIsNoRematch(matches, standings[k].id, ps[i].id1, ps[i].id2);
      }
  }

  // ---------------------------------------------------------------------
  // Rank order and first rounds
  // ---------------------------------------------------------------------

  /** A greedy step on the unpaired rows leaves the unpaired rows: marking
      the first one paired drops it, marking the opponent paired drops the
      opponent's row. */
  lemma UnpairedStep(standings: seq<Standing>, paired: seq<int>, o: Standing)
    requires UniqueIds(standings) && Unpaired(standings, paired) != []
    ensures var pool := Unpaired(standings, paired);
      && pool[1..] == Unpaired(standings, paired + [pool[0].id])
      && RemoveId(pool[1..], o.id) == Unpaired(standings, paired + [pool[0].id] + [o.id])
  {
    var pool := Unpaired(standings, paired);
    UnpairedKeepsUnique(standings, paired);
    UniqueTail(pool);
    UnpairedExtend(standings, paired, pool[0].id);
    RemoveIdAbsent(pool[1..], pool[0].id);
    assert RemoveId(pool, pool[0].id) == RemoveId(pool[1..], pool[0].id);
    UnpairedExtend(standings, paired + [pool[0].id], o.id);
  }

  /** The pair the greedy pass forms once the players in `paired` are taken:
      the highest-ranked player still unpaired, with their top unplayed
      opponent. */
  function NextPair(standings: seq<Standing>, matches: seq<Match>, paired: seq<int>): Option<Pairing> {
    var pool := Unpaired(standings, paired);
    if pool == [] then None
    else
      var leader := pool[0];
      match TopUnplayedOpponent(standings, matches, leader.id, paired + [leader.id])
      case None => None
      case Some(o) => Some(Pairing(leader.id, leader.name, o.id, o.name))
  }

  lemma ConcatShift(paired: seq<int>, a: int, b: int, rest: seq<int>)
    ensures paired + ([a, b] + rest) == paired + [a] + [b] + rest
  {
  }

  /** Pairs are formed in rank order: each pair of a successful pass is the
      one NextPair picks after the earlier pairs are taken. Its first player
      is the highest-ranked player still unpaired and its second is that
      player's top unplayed opponent. */
  lemma {:induction false} GreedyFollowsRanking(standings: seq<Standing>, matches: seq<Match>, paired: seq<int>, ps: seq<Pairing>)
    requires UniqueIds(standings)
    requires Greedy(standings, matches, Unpaired(standings, paired), paired) == Ok(ps)
    ensures forall k :: 0 <= k < |ps| ==> NextPair(standings, matches, paired + PairIds(ps[..k])) == Some(ps[k])
    decreases |Unpaired(standings, paired)|
  {
    var pool := Unpaired(standings, paired);
    if pool != [] {
      var p := pool[0];
      var o := TopUnplayedOpponent(standings, matches, p.id, paired + [p.id]).value;
      var paired' := paired + [p.id] + [o.id];
      UnpairedStep(standings, paired, o);
      var ps' := Greedy(standings, matches, Unpaired(standings, paired'), paired').value;
      assert ps == [Pairing(p.id, p.name, o.id, o.name)] + ps';
      assert NextPair(standings, matches, paired) == Some(ps[0]);
      GreedyFollowsRanking(standings, matches, paired', ps');
      RankingCons(standings, matches, paired, ps[0], ps');
    }
  }

  /** A pair picked first, followed by pairs each picked once the earlier
      ones are taken, is again such a sequence of pairs. */
  lemma RankingCons(standings: seq<Standing>, matches: seq<Match>, paired: seq<int>, x: Pairing, rest: seq<Pairing>)
    requires NextPair(standings, matches, paired) == Some(x)
    requires forall k :: 0 <= k < |rest| ==>
      NextPair(standings, matches, paired + [x.id1] + [x.id2] + PairIds(rest[..k])) == Some(rest[k])
    ensures var ps := [x] + rest;
      forall k :: 0 <= k < |ps| ==> NextPair(standings, matches, paired + PairIds(ps[..k])) == Some(ps[k])
  {
    var ps := [x] + rest;
    forall k | 0 <= k < |ps| ensures NextPair(standings, matches, paired + PairIds(ps[..k])) == Some(ps[k]) {
      if k == 0 {
        assert paired + PairIds(ps[..0]) == paired;
      } else {
        var before := rest[..k - 1];
        assert ps[..k] == [x] + before;
        PairIdsCons(x, before);
        ConcatShift(paired, x.id1, x.id2, PairIds(before));
        assert ps[k] == rest[k - 1];
      }
    }
  }

  /** No two players of the pool have met before. */
  ghost predicate Fresh(matches: seq<Match>, pool: seq<Standing>) {
    forall a, b :: a in pool && b in pool ==> !CheckRematch(matches, a.id, b.id)
  }

  /** Any part of a fresh pool is fresh. */
  lemma FreshPart(matches: seq<Match>, pool: seq<Standing>, part: seq<Standing>)
    requires Fresh(matches, pool)
    requires forall x :: x in part ==> x in pool
    ensures Fresh(matches, part)
  {
  }

  lemma LessTwoIsEven(n: nat)
    requires n % 2 == 0 && n >= 2
    ensures (n - 2) % 2 == 0
  {
  }

  /** Recording a bye keeps a pool, or any part of it, fresh. */
  lemma FreshAfterBye(matches: seq<Match>, field: seq<Standing>, pool: seq<Standing>, w: int)
    requires Fresh(matches, field)
    requires forall x :: x in pool ==> x in field
    ensures Fresh(matches + [Match(w, None)], pool)
  {
    forall a, b | a in pool && b in pool ensures !CheckRematch(matches + [Match(w, None)], a.id, b.id) {
      ByeIsNoRematch(matches, w, a.id, b.id);
    }
  }

  /** Standings neighbours paired off in order: the first row with the
      second, the third with the fourth, and so on. */
  function Neighbours(s: seq<Standing>): (r: seq<Pairing>)
    requires |s| % 2 == 0
    ensures 2 * |r| == |s|
    ensures forall k :: 0 <= k < |r| ==>
      r[k] == Pairing(s[2 * k].id, s[2 * k].name, s[2 * k + 1].id, s[2 * k + 1].name)
    decreases |s|
  {
    if s == [] then []
    else [Pairing(s[0].id, s[0].name, s[1].id, s[1].name)] + Neighbours(s[2..])
  }

  /** When no two unpaired players have met before, an even pool is paired
      off between standings neighbours. */
  lemma {:induction false} GreedyPairsNeighbours(standings: seq<Standing>, matches: seq<Match>, paired: seq<int>)
    requires UniqueIds(standings)
    requires |Unpaired(standings, paired)| % 2 == 0
    requires Fresh(matches, Unpaired(standings, paired))
    ensures Greedy(standings, matches, Unpaired(standings, paired), paired) == Ok(Neighbours(Unpaired(standings, paired)))
    decreases |Unpaired(standings, paired)|
  {
    var pool := Unpaired(standings, paired);
    if pool != [] {
      var p, q := pool[0], pool[1];
      var paired1 := paired + [p.id];
      UnpairedStep(standings, paired, q);
      assert pool[1..][0] == q;
      var k := UnpairedHead(standings, paired1);
      assert p in pool && q in pool;
      assert Unplayed(matches, p.id, paired1, standings[k]);
      TopUnplayedOpponentIs(standings, matches, p.id, paired1, k);
      GreedyUnfold(standings, matches, pool, paired, q);
      var paired2 := paired1 + [q.id];
      UnpairedKeepsUnique(standings, paired);
      UniqueTail(pool);
      UniqueTail(pool[1..]);
      assert pool[1..][1..] == pool[2..];
      RemoveIdAbsent(pool[2..], q.id);
      assert Unpaired(standings, paired2) == pool[2..];
      assert forall x :: x in pool[2..] ==> x in pool;
      FreshPart(matches, pool, pool[2..]);
      LessTwoIsEven(|pool|);
      GreedyPairsNeighbours(standings, matches, paired2);
    }
  }

  /** The whole field less the player at index `k` is the field with that
      player paired. */
  lemma WithoutIsUnpaired(standings: seq<Standing>, k: nat)
    requires UniqueIds(standings) && k < |standings|
    ensures Without(standings, k) == Unpaired(standings, [standings[k].id])
  {
    UnpairedExtend(standings, [], standings[k].id);
    assert [] + [standings[k].id] == [standings[k].id];
    UnpairedNobody(standings);
    RemoveIdAt(standings, k);
  }

  /** When no two players have met before (a first round, for one) and an
      odd field still has a player without a bye, the round succeeds and
      pairs standings neighbours: with an even field the first with the
      second, the third with the fourth and so on; with an odd field the
      same over the field less the bye recipient. */
  lemma RoundPairsNeighboursWhenFresh(standings: seq<Standing>, matches: seq<Match>)
    requires UniqueIds(standings)
    requires Fresh(matches, standings)
    requires |standings| % 2 == 0 || ByeIndex(standings, matches).Some?
    ensures ByeRecipient(standings, matches).None? ==>
      Round(standings, matches) == Ok(Neighbours(standings))
    ensures ByeRecipient(standings, matches).Some? ==>
      Round(standings, matches) == Ok(Neighbours(Without(standings, ByeRecipient(standings, matches).value)))
  {
    match ByeRecipient(standings, matches)
    case None =>
      UnpairedNobody(standings);
      GreedyPairsNeighbours(standings, matches, []);
    case Some(k) =>
      ByeRoundPairsNeighbours(standings, matches, k);
  }

  lemma ByeRoundPairsNeighbours(standings: seq<Standing>, matches: seq<Match>, k: nat)
    requires UniqueIds(standings)
    requires Fresh(matches, standings)
    requires ByeRecipient(standings, matches) == Some(k)
    ensures |Without(standings, k)| % 2 == 0
    ensures Round(standings, matches) == Ok(Neighbours(Without(standings, k)))
  {
    var w := Without(standings, k);
    var m' := matches + [Match(standings[k].id, None)];
    WithoutIsUnpaired(standings, k);
    FieldLessByeIsPool(standings, k);
    FreshAfterBye(matches, standings, w, standings[k].id);
    OddLessOneIsEven(|standings|);
    GreedyPairsNeighbours(standings, m', [standings[k].id]);
    RoundWithBye(standings, matches, k);
  }

  /** The first round of a tournament (no match on record): an even field
      is paired first with second, third with fourth and so on; in an odd
      field the leader gets the bye and the rest are paired the same way. */
  lemma FirstRound(standings: seq<Standing>)
    requires UniqueIds(standings)
    ensures |standings| % 2 == 0 ==>
      ByeRecords(standings, []) == [] && Round(standings, []) == Ok(Neighbours(standings))
    ensures |standings| % 2 == 1 ==>
      && ByeRecords(standings, []) == [Match(standings[0].id, None)]
      && Round(standings, []) == Ok(Neighbours(standings[1..]))
  {
    assert Fresh([], standings);
    if |standings| % 2 == 1 {
      assert ByeIndex(standings, []) == Some(0);
      assert Without(standings, 0) == standings[1..];
    }
    RoundPairsNeighboursWhenFresh(standings, []);
  }

  /** The players already taken before the greedy pass of a round starts:
      the bye recipient, if any. */
  function ByePaired(standings: seq<Standing>, matches: seq<Match>): seq<int> {
    match ByeRecipient(standings, matches)
    case None => []
    case Some(k) => [standings[k].id]
  }

  /** Pairs of a round are formed in rank order: once the bye (if any) and
      pairs 0..k-1 are taken, pair k is the highest-ranked player still
      unpaired with their top unplayed opponent, judged on the history that
      includes this round's bye record. */
  lemma RoundFollowsRanking(standings: seq<Standing>, matches: seq<Match>, ps: seq<Pairing>)
    requires UniqueIds(standings)
    requires Round(standings, matches) == Ok(ps)
    ensures forall k :: 0 <= k < |ps| ==>
      NextPair(standings, matches + ByeRecords(standings, matches), ByePaired(standings, matches) + PairIds(ps[..k])) == Some(ps[k])
  {
    match ByeRecipient(standings, matches)
    case None =>
      RoundWithoutBye(standings, matches);
      assert matches + [] == matches;
      UnpairedNobody(standings);
      GreedyFollowsRanking(standings, matches, [], ps);
      forall k | 0 <= k < |ps|
        ensures NextPair(standings, matches + ByeRecords(standings, matches), ByePaired(standings, matches) + PairIds(ps[..k])) == Some(ps[k])
      {
        assert [] + PairIds(ps[..k]) == PairIds(ps[..k]);
      }
    case Some(b) =>
      RoundWithBye(standings, matches, b);
      WithoutIsUnpaired(standings, b);
      GreedyFollowsRanking(standings, matches + [Match(standings[b].id, None)], [standings[b].id], ps);
  }

  /** The pairing loop of swissPairings: while players remain, the first
      remaining player is marked paired and gets their top unplayed opponent;
      the pair is emitted and both leave the pool. */
  method PairOff(standings: seq<Standing>, matches: seq<Match>, pool0: seq<Standing>, paired0: seq<int>)
    returns (r: Result<seq<Pairing>, PairingError>)
    ensures r == Greedy(standings, matches, pool0, paired0)
  {
    var pairings: seq<Pairing> := [];
    var paired := paired0;
    var pool := pool0;
    PrependNothing(Greedy(standings, matches, pool, paired));
    while pool != []
      invariant Greedy(standings, matches, pool0, paired0) == Prepend(pairings, Greedy(standings, matches, pool, paired))
      decreases |pool|
    {
      var player := pool[0];
      ghost var pairedBefore := paired;
      paired := paired + [player.id];
      var opponent := TopUnplayedOpponent(standings, matches, player.id, paired);
      if opponent.None? {
        return Err(NoOpponent(player.id));
      }
      var o := opponent.value;
      GreedyUnfold(standings, matches, pool, pairedBefore, o);
      PrependTwice(pairings, [Pairing(player.id, player.name, o.id, o.name)],
        Greedy(standings, matches, RemoveId(pool[1..], o.id), paired + [o.id]));
      pairings := pairings + [Pairing(player.id, player.name, o.id, o.name)];
      paired := paired + [o.id];
      pool := DropId(pool[1..], o.id);
    }
    assert pairings + [] == pairings;
    r := Ok(pairings);
  }

  /** The inner loop of the pairing step: drop the opponent's row from the
      remaining standings. */
  method DropId(s: seq<Standing>, id: int) returns (r: seq<Standing>)
    ensures r == RemoveId(s, id)
  {
    r := [];
    var i := 0;
    while i < |s|
      invariant 0 <= i <= |s|
      invariant r + RemoveId(s[i..], id) == RemoveId(s, id)
    {
      assert s[i..][1..] == s[i + 1..];
      if s[i].id != id {
        r := r + [s[i]];
      }
      i := i + 1;
    }
  }
}
