/** The first-round example: winners are paired with winners and losers with
    losers in the following round. */
module Scenario {
  import opened Standings
  import opened Ranking
  import opened Pairing

  /** After a first round in which a beat b and c beat d, the winners meet
      each other and so do the losers, whatever order the ties come in. */
  lemma WinnersMeetWinners(m: map<PlayerId, Record>, standings: seq<Standing>, pairs: seq<Pair>,
                           a: PlayerId, b: PlayerId, c: PlayerId, d: PlayerId)
    requires IsStandingsOf(m, standings)
    requires IsAdjacentPairing(standings, pairs)
    requires m.Keys == {a, b, c, d}
    requires a != b && a != c && a != d && b != c && b != d && c != d
    requires m[a].wins == 1 && m[c].wins == 1 && m[b].wins == 0 && m[d].wins == 0
    ensures |pairs| == 2
    ensures {pairs[0].id1, pairs[0].id2} == {a, c}
    ensures {pairs[1].id1, pairs[1].id2} == {b, d}
  {
    FourPlayers(a, b, c, d);
    var ia := RowIndex(m, standings, a);
    var ib := RowIndex(m, standings, b);
    var ic := RowIndex(m, standings, c);
    var id := RowIndex(m, standings, d);
    assert ia != ib && ia != ic && ia != id && ib != ic && ib != id && ic != id;
    MoreWinsComesFirst(standings, ia, ib);
    MoreWinsComesFirst(standings, ia, id);
    MoreWinsComesFirst(standings, ic, ib);
    MoreWinsComesFirst(standings, ic, id);
    assert (ia == 0 && ic == 1) || (ia == 1 && ic == 0);
    assert (ib == 2 && id == 3) || (ib == 3 && id == 2);
    Seats(standings, pairs, 0);
    Seats(standings, pairs, 1);
  }

  /** In a list ordered by descending wins, a row with strictly more wins
      sits strictly earlier. */
  lemma MoreWinsComesFirst(rows: seq<Standing>, i: nat, j: nat)
    requires ByWinsDescending(rows)
    requires i < |rows| && j < |rows|
    requires rows[i].wins > rows[j].wins
    ensures i < j
  {
  }

  /** The position of a registered player in the standings, and its wins. */
  lemma RowIndex(m: map<PlayerId, Record>, standings: seq<Standing>, p: PlayerId) returns (i: nat)
    requires IsStandingsOf(m, standings)
    requires p in m
    ensures i < |standings| && standings[i].id == p
    ensures standings[i].wins == m[p].wins
  {
    assert p in Ids(standings);
    i :| 0 <= i < |standings| && standings[i].id == p;
    assert RowOf(m, standings[i]);
  }

  /** Four players, all without wins; a beats b and c beats d. */
  method PlayFirstRound(t: Tournament, a: PlayerId, b: PlayerId, c: PlayerId, d: PlayerId) returns (r: Tournament)
    requires t.players.Keys == {a, b, c, d}
    requires a != b && a != c && a != d && b != c && b != d && c != d
    requires forall id :: id in t.players ==> t.players[id].wins == 0
    ensures r.players.Keys == {a, b, c, d}
    ensures r.players[a].wins == 1 && r.players[c].wins == 1
    ensures r.players[b].wins == 0 && r.players[d].wins == 0
  {
    var t1 := ReportMatch(t, a, b);
    assert t1.players[c].wins == 0 && t1.players[d].wins == 0;
    r := ReportMatch(t1, c, d);
  }

  /** Four players without wins, as after registration or after the match
      records are wiped: once a beats b and c beats d, the next round pairs
      a with c and b with d. */
  method FirstRoundScenario(t: Tournament, a: PlayerId, b: PlayerId, c: PlayerId, d: PlayerId)
    returns (r: Result<seq<Pair>>)
    requires t.players.Keys == {a, b, c, d}
    requires a != b && a != c && a != d && b != c && b != d && c != d
    requires forall id :: id in t.players ==> t.players[id].wins == 0
    ensures r.Ok?
    ensures |r.value| == 2
    ensures {r.value[0].id1, r.value[0].id2} == {a, c}
    ensures {r.value[1].id1, r.value[1].id2} == {b, d}
  {
    var t' := PlayFirstRound(t, a, b, c, d);
    var standings := ComputeStandings(t');
    FourPlayers(a, b, c, d);
    assert |standings| == 2 * 2;
    r := SwissPairings(standings);
    WinnersMeetWinners(t'.players, standings, r.value, a, b, c, d);
  }

  lemma FourPlayers(a: PlayerId, b: PlayerId, c: PlayerId, d: PlayerId)
    requires a != b && a != c && a != d && b != c && b != d && c != d
    ensures |{a, b, c, d}| == 4
  {
    assert {a, b, c, d} == {a, b, c} + {d};
    assert {a, b, c} == {a, b} + {c};
    assert {a, b} == {a} + {b};
  }
}
