/** The records of the tournament database, held as values: rows of the
    players and matches tables, rows of the standings view, and the pairings
    that a Swiss round produces. */
module Records {

  datatype Option<T> = None | Some(value: T)

  datatype Result<T, E> = Ok(value: T) | Err(error: E)

  /** A row of the players table: the serial id the database assigns and the
      name as registered (names need not be unique). */
  datatype Player = Player(id: int, name: string)

  /** A row of the matches table. A bye is a match whose loser is absent
      (SQL NULL). */
  datatype Match = Match(winner: int, loser: Option<int>)

  /** A row of the standings view: (id, name, wins, matches). */
  datatype Standing = Standing(id: int, name: string, wins: nat, matches: nat)

  /** One pairing of a round: (id1, name1, id2, name2). */
  datatype Pairing = Pairing(id1: int, name1: string, id2: int, name2: string)

  /** Why a round cannot be paired: `topOpponent` found no row for `player`,
      so indexing the empty query result raises. */
  datatype PairingError = NoOpponent(player: int)

  /** No two rows share an id (the view is keyed by player id). */
  predicate UniqueIds(s: seq<Standing>) {
    forall i, j :: 0 <= i < j < |s| ==> s[i].id != s[j].id
  }

  /** Rows ordered by wins, most wins first (the order of the standings view). */
  predicate SortedByWins(s: seq<Standing>) {
    forall i, j :: 0 <= i < j < |s| ==> s[i].wins >= s[j].wins
  }

  predicate Distinct(xs: seq<int>) {
    forall i, j :: 0 <= i < j < |xs| ==> xs[i] != xs[j]
  }

  /** The ids of the players in `s`. */
  ghost function IdSet(s: seq<Standing>): set<int> {
    set r | r in s :: r.id
  }

  /** Every player id mentioned by a list of pairings, in order. */
  function PairIds(ps: seq<Pairing>): seq<int> {
    if ps == [] then [] else [ps[0].id1, ps[0].id2] + PairIds(ps[1..])
  }

  /** `s` with the row at index `k` taken out. */
  function Without(s: seq<Standing>, k: nat): (r: seq<Standing>)
    requires k < |s|
    ensures |r| == |s| - 1
  {
    s[..k] + s[k + 1..]
  }

  /** `s` with every row whose id is `id` taken out, order kept. */
  function RemoveId(s: seq<Standing>, id: int): (r: seq<Standing>)
    ensures |r| <= |s|
    ensures forall x :: x in r <==> x in s && x.id != id
  {
    if s == [] then []
    else if s[0].id == id then RemoveId(s[1..], id)
    else [s[0]] + RemoveId(s[1..], id)
  }

  /** The index of the first row of `s` that `ok` accepts: a scan of the
      rows in ranked order that stops at the first hit. */
  function First(s: seq<Standing>, ok: Standing -> bool): (r: Option<nat>)
    ensures r.Some? ==> r.value < |s| && ok(s[r.value])
    ensures r.Some? ==> forall j :: 0 <= j < r.value ==> !ok(s[j])
    ensures r.None? ==> forall j :: 0 <= j < |s| ==> !ok(s[j])
  {
    if s == [] then None
    else if ok(s[0]) then Some(0)
    else match First(s[1..], ok)
      case None => None
      case Some(k) => Some(k + 1)
  }

  /** On rows sorted by wins, the first accepted row has the most wins among
      the accepted ones. */
  lemma FirstHasMostWins(s: seq<Standing>, ok: Standing -> bool)
    requires SortedByWins(s)
    requires First(s, ok).Some?
    ensures forall j :: 0 <= j < |s| && ok(s[j]) ==> s[j].wins <= s[First(s, ok).value].wins
  {
  }

  lemma UniqueTail(s: seq<Standing>)
    requires UniqueIds(s) && s != []
    ensures UniqueIds(s[1..])
    ensures forall x :: x in s[1..] ==> x.id != s[0].id
  {
    forall x | x in s[1..] ensures x.id != s[0].id {
      var k :| 0 <= k < |s[1..]| && s[1..][k] == x;
      assert s[k + 1] == x;
    }
  }

  lemma UniqueCons(a: Standing, t: seq<Standing>)
    requires UniqueIds(t)
    requires forall x :: x in t ==> x.id != a.id
    ensures UniqueIds([a] + t)
  {
    var r := [a] + t;
    forall i, j | 0 <= i < j < |r| ensures r[i].id != r[j].id {
      assert r[j] == t[j - 1];
      if i == 0 {
        assert t[j - 1] in t;
      } else {
        assert r[i] == t[i - 1];
      }
    }
  }

  /** Removing rows keeps the ids unique. */
  lemma {:induction false} RemoveIdKeepsUnique(s: seq<Standing>, id: int)
    requires UniqueIds(s)
    ensures UniqueIds(RemoveId(s, id))
    decreases |s|
  {
    if s != [] {
      UniqueTail(s);
      RemoveIdKeepsUnique(s[1..], id);
      if s[0].id != id {
        UniqueCons(s[0], RemoveId(s[1..], id));
      }
    }
  }

  /** Removing an id no row carries changes nothing. */
  lemma {:induction false} RemoveIdAbsent(s: seq<Standing>, id: int)
    requires forall x :: x in s ==> x.id != id
    ensures RemoveId(s, id) == s
    decreases |s|
  {
    if s != [] {
      assert s[0] in s;
      assert forall x :: x in s[1..] ==> x in s;
      RemoveIdAbsent(s[1..], id);
      assert s == [s[0]] + s[1..];
    }
  }

  /** With unique ids, removing the id of a row that is present removes
      exactly that row. */
  lemma {:induction false} RemoveIdDropsOne(s: seq<Standing>, x: Standing)
    requires UniqueIds(s) && x in s
    ensures |RemoveId(s, x.id)| == |s| - 1
    decreases |s|
  {
    UniqueTail(s);
    if s[0].id == x.id {
      RemoveIdAbsent(s[1..], x.id);
    } else {
      assert x in s[1..];
      RemoveIdDropsOne(s[1..], x);
    }
  }

  /** The rows of `s` whose players are not in `paired`, in ranked order. */
  function Unpaired(s: seq<Standing>, paired: seq<int>): (r: seq<Standing>)
    ensures |r| <= |s|
    ensures forall x :: x in r <==> x in s && x.id !in paired
  {
    if s == [] then []
    else if s[0].id in paired then Unpaired(s[1..], paired)
    else [s[0]] + Unpaired(s[1..], paired)
  }

  /** Pairing one more player removes exactly that player's row. */
  lemma {:induction false} UnpairedExtend(s: seq<Standing>, paired: seq<int>, id: int)
    ensures Unpaired(s, paired + [id]) == RemoveId(Unpaired(s, paired), id)
    decreases |s|
  {
    if s != [] {
      UnpairedExtend(s[1..], paired, id);
      if s[0].id !in paired {
        assert RemoveId([s[0]] + Unpaired(s[1..], paired), id) ==
          if s[0].id == id then RemoveId(Unpaired(s[1..], paired), id)
          else [s[0]] + RemoveId(Unpaired(s[1..], paired), id);
      }
    }
  }

  lemma {:induction false} UnpairedKeepsUnique(s: seq<Standing>, paired: seq<int>)
    requires UniqueIds(s)
    ensures UniqueIds(Unpaired(s, paired))
    decreases |s|
  {
    if s != [] {
      UniqueTail(s);
      UnpairedKeepsUnique(s[1..], paired);
      if s[0].id !in paired {
        UniqueCons(s[0], Unpaired(s[1..], paired));
      }
    }
  }

  /** The first unpaired row is the first row of `s`, in ranked order, whose
      player is not in `paired`. */
  lemma {:induction false} UnpairedHead(s: seq<Standing>, paired: seq<int>) returns (k: nat)
    requires Unpaired(s, paired) != []
    ensures k < |s| && s[k] == Unpaired(s, paired)[0] && s[k].id !in paired
    ensures forall j :: 0 <= j < k ==> s[j].id in paired
    decreases |s|
  {
    if s[0].id in paired {
      var k' := UnpairedHead(s[1..], paired);
      k := k' + 1;
    } else {
      k := 0;
    }
  }

  lemma PairIdsCons(x: Pairing, t: seq<Pairing>)
    ensures PairIds([x] + t) == [x.id1, x.id2] + PairIds(t)
  {
    assert ([x] + t)[1..] == t;
  }

  /** With nobody paired, every row is unpaired. */
  lemma {:induction false} UnpairedNobody(s: seq<Standing>)
    ensures Unpaired(s, []) == s
    decreases |s|
  {
    if s != [] {
      UnpairedNobody(s[1..]);
      assert s == [s[0]] + s[1..];
    }
  }

  /** With unique ids, removing the id of the row at index `k` removes just
      that row. */
  lemma {:induction false} RemoveIdAt(s: seq<Standing>, k: nat)
    requires UniqueIds(s) && k < |s|
    ensures RemoveId(s, s[k].id) == Without(s, k)
    decreases k
  {
    UniqueTail(s);
    if k == 0 {
      RemoveIdAbsent(s[1..], s[0].id);
      assert s[..0] + s[1..] == s[1..];
    } else {
      assert s[k] in s[1..];
      assert s[1..][k - 1] == s[k];
      RemoveIdAt(s[1..], k - 1);
      assert [s[0]] + (s[1..][..k - 1] + s[1..][k..]) == s[..k] + s[k + 1..];
    }
  }
}
