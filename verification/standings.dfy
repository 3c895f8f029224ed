/** The tournament's stored state and the operations that change it.

    The two tables of the source (players and standings, one standings row per
    player) are folded into one map from player id to that player's record.
    Each SQL statement of the source is modelled by its effect on that map.
 */
module Standings {

  /** Player ids are assigned by the database's serial column. */
  type PlayerId = nat

  /** A player's name together with the player's row of the standings table. */
  datatype Record = Record(name: string, wins: nat, matches: nat)

  /** The registered players, and the next value the id serial will hand out.
      The serial is never reset, so an id is never reused. */
  datatype Tournament = Tournament(players: map<PlayerId, Record>, nextId: PlayerId)

  /** The state invariant: every id came from the serial, and nobody has won
      more matches than they played. */
  predicate Valid(t: Tournament) {
    forall id :: id in t.players ==> id < t.nextId && t.players[id].wins <= t.players[id].matches
  }

  /** A fresh database: no players, and a serial that starts at 1. */
  function Empty(): (t: Tournament)
    ensures Valid(t)
    ensures CountPlayers(t) == 0
  {
    Tournament(map[], 1)
  }

  /** The number of players currently registered. */
  function CountPlayers(t: Tournament): (n: nat)
    ensures n == |t.players.Keys|
    ensures n == 0 <==> t.players == map[]
  {
    |t.players|
  }

  /** Adds a player under the next serial id, with no wins and no matches. */
  function RegisterPlayer(t: Tournament, name: string): (r: Tournament)
    ensures r.players.Keys == t.players.Keys + {t.nextId}
    ensures r.players[t.nextId] == Record(name, 0, 0)
    ensures forall id :: id in t.players && id != t.nextId ==> r.players[id] == t.players[id]
    ensures t.nextId < r.nextId
    ensures Valid(t) ==> t.nextId !in t.players && CountPlayers(r) == CountPlayers(t) + 1 && Valid(r)
  {
    Tournament(t.players[t.nextId := Record(name, 0, 0)], t.nextId + 1)
  }

  /** One `UPDATE standings SET wins = wins + 1 WHERE player_id = id`:
      an id with no row changes nothing. */
  function AddWin(m: map<PlayerId, Record>, id: PlayerId): (r: map<PlayerId, Record>)
    ensures r.Keys == m.Keys
    ensures forall other :: other in m && other != id ==> r[other] == m[other]
  {
    if id in m then m[id := m[id].(wins := m[id].wins + 1)] else m
  }

  /** One `UPDATE standings SET matches = matches + 1 WHERE player_id = id`. */
  function AddMatch(m: map<PlayerId, Record>, id: PlayerId): (r: map<PlayerId, Record>)
    ensures r.Keys == m.Keys
    ensures forall other :: other in m && other != id ==> r[other] == m[other]
  {
    if id in m then m[id := m[id].(matches := m[id].matches + 1)] else m
  }

  /** Records that `winner` beat `loser`, as the three UPDATE statements in
      order: the winner's wins, the winner's matches, the loser's matches.
      The source does not check that the ids are registered or distinct. */
  function ReportMatch(t: Tournament, winner: PlayerId, loser: PlayerId): (r: Tournament)
    ensures r.nextId == t.nextId
    ensures r.players.Keys == t.players.Keys
    ensures CountPlayers(r) == CountPlayers(t)
    ensures forall id :: id in t.players && id != winner && id != loser ==> r.players[id] == t.players[id]
    ensures winner != loser && winner in t.players ==>
      r.players[winner] == Record(t.players[winner].name, t.players[winner].wins + 1, t.players[winner].matches + 1)
    ensures winner != loser && loser in t.players ==>
      r.players[loser] == Record(t.players[loser].name, t.players[loser].wins, t.players[loser].matches + 1)
    ensures winner == loser && winner in t.players ==>
      r.players[winner] == Record(t.players[winner].name, t.players[winner].wins + 1, t.players[winner].matches + 2)
    ensures Valid(t) ==> Valid(r)
  {
    Tournament(AddMatch(AddMatch(AddWin(t.players, winner), winner), loser), t.nextId)
  }

  /** Zeroes every player's counters; the players themselves stay. */
  function DeleteMatches(t: Tournament): (r: Tournament)
    ensures r.nextId == t.nextId
    ensures r.players.Keys == t.players.Keys
    ensures forall id :: id in r.players ==>
      r.players[id].name == t.players[id].name && r.players[id].wins == 0 && r.players[id].matches == 0
    ensures Valid(t) ==> Valid(r)
  {
    Tournament(map id | id in t.players :: Record(t.players[id].name, 0, 0), t.nextId)
  }

  /** Removes every player and every standings row. The id serial is not
      reset, so later registrations still receive fresh ids. */
  function DeletePlayers(t: Tournament): (r: Tournament)
    ensures r.players == map[]
    ensures CountPlayers(r) == 0
    ensures r.nextId == t.nextId
    ensures Valid(r)
  {
    Tournament(map[], t.nextId)
  }

  /** The calls a client can make that change the stored state. */
  datatype Command =
    | Register(name: string)
    | Report(winner: PlayerId, loser: PlayerId)
    | ResetMatches
    | ResetPlayers

  function Apply(t: Tournament, c: Command): Tournament {
    match c
    case Register(name) => RegisterPlayer(t, name)
    case Report(w, l) => ReportMatch(t, w, l)
    case ResetMatches => DeleteMatches(t)
    case ResetPlayers => DeletePlayers(t)
  }

  /** The state after a history of calls, applied first to last. */
  function Replay(t: Tournament, cs: seq<Command>): Tournament
    decreases |cs|
  {
    if cs == [] then t else Replay(Apply(t, cs[0]), cs[1..])
  }

  /** Whatever calls are made, ids stay below the serial and no player's
      wins ever exceed the matches they played. */
  lemma {:induction false} ReplayPreservesValid(t: Tournament, cs: seq<Command>)
    requires Valid(t)
    ensures Valid(Replay(t, cs))
    decreases |cs|
  {
    if cs != [] {
      var t' := Apply(t, cs[0]);
      assert Valid(t');
      ReplayPreservesValid(t', cs[1..]);
    }
  }

  /** Every state reachable from a fresh database satisfies the invariant. */
  lemma ReachableIsValid(cs: seq<Command>)
    ensures Valid(Replay(Empty(), cs))
  {
    ReplayPreservesValid(Empty(), cs);
  }
}
