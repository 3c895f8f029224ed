/** Swiss pairings: players are matched with their neighbour in the standings,
    first with second, third with fourth, and so on. */
module Pairing {
  import opened Standings
  import opened Ranking

  /** The first two fields of a standings row, as the source slices them. */
  datatype Entrant = Entrant(id: PlayerId, name: string)

  /** One pair of the next round, as the concatenation of two entrants:
      (id1, name1, id2, name2). */
  datatype Pair = Pair(id1: PlayerId, name1: string, id2: PlayerId, name2: string)

  datatype PairingError = OddPlayerCount

  datatype Result<T> = Ok(value: T) | Err(error: PairingError)

  function Entrants(standings: seq<Standing>): (r: seq<Entrant>)
    ensures |r| == |standings|
    ensures forall i :: 0 <= i < |r| ==> r[i].id == standings[i].id && r[i].name == standings[i].name
  {
    seq(|standings|, i requires 0 <= i < |standings| => Entrant(standings[i].id, standings[i].name))
  }

  function Join(a: Entrant, b: Entrant): Pair {
    Pair(a.id, a.name, b.id, b.name)
  }

  /** Pair k is made of the standings rows at positions 2k and 2k+1, in that
      order, keeping only their ids and names; there are exactly half as many
      pairs as rows. */
  predicate IsAdjacentPairing(standings: seq<Standing>, pairs: seq<Pair>) {
    && |standings| == 2 * |pairs|
    && forall k :: 0 <= k < |pairs| ==>
      pairs[k] == Pair(standings[2 * k].id, standings[2 * k].name, standings[2 * k + 1].id, standings[2 * k + 1].name)
  }

  /** Pairs the standings in strides of two. An odd number of rows is refused
      rather than read past the end. */
  method SwissPairings(standings: seq<Standing>) returns (r: Result<seq<Pair>>)
    ensures r.Err? <==> |standings| % 2 == 1
    ensures r.Ok? ==> IsAdjacentPairing(standings, r.value)
  {
    if |standings| % 2 == 1 {
      return Err(OddPlayerCount);
    }
    var entrants := Entrants(standings);
    var index := 0;
    var pairings: seq<Pair> := [];
    while index < |standings|
      invariant 0 <= index <= |standings| && index % 2 == 0
      invariant |pairings| * 2 == index
      invariant forall k :: 0 <= k < |pairings| ==> pairings[k] == Join(entrants[2 * k], entrants[2 * k + 1])
    {
      var pair := Join(entrants[index], entrants[index + 1]);
      pairings := pairings + [pair];
      index := index + 2;
    }
    return Ok(pairings);
  }

  predicate InPair(p: Pair, id: PlayerId) {
    p.id1 == id || p.id2 == id
  }

  /** The round seats each of `ids` exactly once and no one else: no pair
      holds the same player twice, no player sits in two pairs, and every id
      has a seat. */
  ghost predicate CoversOnce(pairs: seq<Pair>, ids: set<PlayerId>) {
    && (forall k :: 0 <= k < |pairs| ==> pairs[k].id1 != pairs[k].id2)
    && SeatedAtMostOnce(pairs)
    && (forall k :: 0 <= k < |pairs| ==> pairs[k].id1 in ids && pairs[k].id2 in ids)
    && (forall id :: id in ids ==> exists k :: 0 <= k < |pairs| && InPair(pairs[k], id))
  }

  /** No player sits in two different pairs. */
  ghost predicate SeatedAtMostOnce(pairs: seq<Pair>) {
    forall k, k', id :: 0 <= k < k' < |pairs| && InPair(pairs[k], id) ==> !InPair(pairs[k'], id)
  }

  /** Adjacent pairing of rows with distinct ids is a partition of those ids
      into pairs. */
  lemma AdjacentPairingPartitions(standings: seq<Standing>, pairs: seq<Pair>)
    requires DistinctIds(standings)
    requires IsAdjacentPairing(standings, pairs)
    ensures CoversOnce(pairs, Ids(standings))
  {
    forall k | 0 <= k < |pairs|
      ensures pairs[k].id1 != pairs[k].id2
      ensures pairs[k].id1 in Ids(standings) && pairs[k].id2 in Ids(standings)
    {
      Seats(standings, pairs, k);
    }
    PairsDisjoint(standings, pairs);
    forall id | id in Ids(standings) ensures exists k :: 0 <= k < |pairs| && InPair(pairs[k], id) {
      var i :| 0 <= i < |standings| && standings[i].id == id;
      var k := SeatOf(standings, pairs, i);
    }
  }

  lemma PairsDisjoint(standings: seq<Standing>, pairs: seq<Pair>)
    requires DistinctIds(standings)
    requires IsAdjacentPairing(standings, pairs)
    ensures SeatedAtMostOnce(pairs)
  {
    forall k, k', id | 0 <= k < k' < |pairs| && InPair(pairs[k], id) ensures !InPair(pairs[k'], id) {
      Seats(standings, pairs, k);
      Seats(standings, pairs, k');
      assert 2 * k + 1 < 2 * k';
    }
  }

  /** The two seats of pair k are the rows at 2k and 2k+1. */
  lemma Seats(standings: seq<Standing>, pairs: seq<Pair>, k: nat)
    requires IsAdjacentPairing(standings, pairs)
    requires k < |pairs|
    ensures 2 * k + 1 < |standings|
    ensures pairs[k].id1 == standings[2 * k].id && pairs[k].id2 == standings[2 * k + 1].id
    ensures pairs[k].id1 in Ids(standings) && pairs[k].id2 in Ids(standings)
  {
  }

  /** The pair that seats row i. */
  lemma SeatOf(standings: seq<Standing>, pairs: seq<Pair>, i: nat) returns (k: nat)
    requires IsAdjacentPairing(standings, pairs)
    requires i < |standings|
    ensures k < |pairs|
    ensures InPair(pairs[k], standings[i].id)
  {
    k := i / 2;
    assert i == 2 * k || i == 2 * k + 1;
  }

  /** Paired players are neighbours in an ordering by wins: the first seat of
      a pair has at least the wins of the second, and each pair has at least
      the wins of every later pair. */
  lemma AdjacentPairingFollowsRanking(m: map<PlayerId, Record>, standings: seq<Standing>, pairs: seq<Pair>)
    requires IsStandingsOf(m, standings)
    requires IsAdjacentPairing(standings, pairs)
    ensures forall k :: 0 <= k < |pairs| ==> pairs[k].id1 in m && pairs[k].id2 in m
    ensures forall k :: 0 <= k < |pairs| ==> m[pairs[k].id1].wins >= m[pairs[k].id2].wins
    ensures forall k, k' :: 0 <= k < k' < |pairs| ==> m[pairs[k].id2].wins >= m[pairs[k'].id1].wins
  {
    forall k | 0 <= k < |pairs|
      ensures pairs[k].id1 in m && pairs[k].id2 in m
      ensures m[pairs[k].id1].wins == standings[2 * k].wins
      ensures m[pairs[k].id2].wins == standings[2 * k + 1].wins
    {
      assert RowOf(m, standings[2 * k]) && RowOf(m, standings[2 * k + 1]);
    }
  }

  /** The next round for the stored players: their standings, paired
      neighbour with neighbour. */
  method ComputePairings(t: Tournament) returns (r: Result<seq<Pair>>)
    ensures r.Err? <==> CountPlayers(t) % 2 == 1
    ensures r.Ok? ==> IsAdjacentPairing(PlayerStandings(t.players), r.value)
    ensures r.Ok? ==> |r.value| * 2 == CountPlayers(t)
    ensures r.Ok? ==> CoversOnce(r.value, t.players.Keys)
    ensures r.Ok? ==> forall k :: 0 <= k < |r.value| ==>
      t.players[r.value[k].id1].wins >= t.players[r.value[k].id2].wins
  {
    var standings := PlayerStandings(t.players);
    StandingsCount(t);
    r := SwissPairings(standings);
    if r.Ok? {
      AdjacentPairingPartitions(standings, r.value);
      AdjacentPairingFollowsRanking(t.players, standings, r.value);
    }
  }

  /** The standings list has one row per registered player. */
  lemma StandingsCount(t: Tournament)
    ensures |PlayerStandings(t.players)| == CountPlayers(t)
  {
    assert |t.players| == |t.players.Keys|;
  }

  /** What the source's loop does, read literally: a return value, or the
      IndexError raised by reading one past the end of the list. */
  datatype Outcome = Returned(pairs: seq<Pair>) | IndexError

  /** The source's pairing loop as written, from position `index` on: while
      `index` is below the row count it reads positions `index` and
      `index + 1`, with no check that the second one exists. */
  function PairingsAsWritten(standings: seq<Standing>, index: nat): (r: Outcome)
    ensures index + 1 == |standings| ==> r == IndexError
    ensures index <= |standings| && r.Returned? ==> index + 2 * |r.pairs| == |standings|
    decreases |standings| - index
  {
    if index < |standings| then
      if index + 1 >= |standings| then IndexError
      else
        var first := Pair(standings[index].id, standings[index].name, standings[index + 1].id, standings[index + 1].name);
        match PairingsAsWritten(standings, index + 2)
        case IndexError => IndexError
        case Returned(rest) => Returned([first] + rest)
    else Returned([])
  }

  /** With an odd number of rows the loop as written runs off the end of the
      list and raises instead of returning a round. */
  lemma {:induction false} OddCountRaisesIndexError(standings: seq<Standing>, index: nat)
    requires index <= |standings| && (|standings| - index) % 2 == 1
    ensures PairingsAsWritten(standings, index) == IndexError
    decreases |standings| - index
  {
    if index + 1 < |standings| {
      OddCountRaisesIndexError(standings, index + 2);
    }
  }

  /** With an even number of rows the loop as written returns exactly the
      adjacent pairing that `SwissPairings` computes. */
  lemma {:induction false} EvenCountAsWrittenPairsAdjacent(standings: seq<Standing>, index: nat)
    requires index <= |standings| && (|standings| - index) % 2 == 0
    ensures PairingsAsWritten(standings, index).Returned?
    ensures IsAdjacentPairing(standings[index..], PairingsAsWritten(standings, index).pairs)
    decreases |standings| - index
  {
    if index < |standings| {
      EvenCountAsWrittenPairsAdjacent(standings, index + 2);
      var rest := PairingsAsWritten(standings, index + 2).pairs;
      var pairs := PairingsAsWritten(standings, index).pairs;
      var tail := standings[index + 2..];
      var s := standings[index..];
      assert pairs == [pairs[0]] + rest;
      forall k | 0 <= k < |pairs|
        ensures pairs[k] == Pair(s[2 * k].id, s[2 * k].name, s[2 * k + 1].id, s[2 * k + 1].name)
      {
        if k > 0 {
          assert pairs[k] == rest[k - 1];
          assert s[2 * k] == tail[2 * (k - 1)];
          assert s[2 * k + 1] == tail[2 * (k - 1) + 1];
        }
      }
    }
  }
}
