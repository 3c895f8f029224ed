/** The standings list: every registered player's row, ordered by wins,
    highest first. The source takes the order from `ORDER BY wins DESC`, which
    leaves the order among equal wins to the database; the contract here
    therefore promises only the ordering by wins and that the rows are exactly
    the stored records. */
module Ranking {
  import opened Standings

  /** One row of the standings query: (id, name, wins, matches). */
  datatype Standing = Standing(id: PlayerId, name: string, wins: nat, matches: nat)

  /** The row is the stored record of the player it names. */
  predicate RowOf(m: map<PlayerId, Record>, s: Standing) {
    s.id in m && m[s.id] == Record(s.name, s.wins, s.matches)
  }

  function Ids(rows: seq<Standing>): set<PlayerId> {
    set i | 0 <= i < |rows| :: rows[i].id
  }

  predicate DistinctIds(rows: seq<Standing>) {
    forall i, j :: 0 <= i < j < |rows| ==> rows[i].id != rows[j].id
  }

  /** Wins never increase from one row to any later one. */
  predicate ByWinsDescending(rows: seq<Standing>) {
    forall i, j :: 0 <= i < j < |rows| ==> rows[i].wins >= rows[j].wins
  }

  /** `rows` lists every player of `m` exactly once, with that player's own
      record, in non-increasing order of wins. */
  predicate IsStandingsOf(m: map<PlayerId, Record>, rows: seq<Standing>) {
    && |rows| == |m.Keys|
    && Ids(rows) == m.Keys
    && DistinctIds(rows)
    && (forall i :: 0 <= i < |rows| ==> RowOf(m, rows[i]))
    && ByWinsDescending(rows)
  }

  /** The smallest id in a non-empty set. */
  function MinId(s: set<PlayerId>): (r: PlayerId)
    requires s != {}
    ensures r in s
    ensures forall x :: x in s ==> r <= x
  {
    MinExists(s);
    var r :| r in s && forall x :: x in s ==> r <= x;
    r
  }

  lemma MinExists(s: set<PlayerId>)
    requires s != {}
    ensures exists r :: r in s && forall x :: x in s ==> r <= x
    decreases s
  {
    var y :| y in s;
    if s != {y} {
      MinExists(s - {y});
      var r :| r in s - {y} && forall x :: x in s - {y} ==> r <= x;
      var least := if y < r then y else r;
      forall x | x in s ensures least <= x {
        if x != y { assert x in s - {y}; }
      }
      assert least in s;
    } else {
      assert forall x :: x in s ==> y <= x;
    }
  }

  /** Where `x` goes in a list sorted by descending wins: ahead of the first
      row whose wins do not exceed its own, or at the end. */
  function InsertPosition(x: Standing, rows: seq<Standing>): (k: nat)
    ensures k <= |rows|
    ensures forall i :: 0 <= i < k ==> rows[i].wins > x.wins
    ensures k < |rows| ==> rows[k].wins <= x.wins
    decreases |rows|
  {
    if rows == [] || rows[0].wins <= x.wins then 0
    else 1 + InsertPosition(x, rows[1..])
  }

  /** `r` is `rows` with `x` placed at index `k`. */
  predicate InsertedAt(x: Standing, rows: seq<Standing>, k: nat, r: seq<Standing>) {
    && k <= |rows|
    && |r| == |rows| + 1
    && r[k] == x
    && (forall i :: 0 <= i < k ==> r[i] == rows[i])
    && (forall i :: k < i < |r| ==> r[i] == rows[i - 1])
  }

  /** Places `x` into a list sorted by descending wins. */
  function Insert(x: Standing, rows: seq<Standing>): (r: seq<Standing>)
    requires ByWinsDescending(rows)
    ensures |r| == |rows| + 1
    ensures Ids(r) == Ids(rows) + {x.id}
    ensures ByWinsDescending(r)
    ensures DistinctIds(rows) && x.id !in Ids(rows) ==> DistinctIds(r)
    ensures forall i :: 0 <= i < |r| ==> r[i] == x || r[i] in rows
  {
    var k := InsertPosition(x, rows);
    var r := rows[..k] + [x] + rows[k..];
    assert InsertedAt(x, rows, k, r);
    InsertKeepsOrder(x, rows, k, r);
    InsertIds(x, rows, k, r);
    r
  }

  lemma InsertKeepsOrder(x: Standing, rows: seq<Standing>, k: nat, r: seq<Standing>)
    requires ByWinsDescending(rows)
    requires InsertedAt(x, rows, k, r)
    requires forall i :: 0 <= i < k ==> rows[i].wins > x.wins
    requires k < |rows| ==> rows[k].wins <= x.wins
    ensures ByWinsDescending(r)
  {
    forall i, j | 0 <= i < j < |r| ensures r[i].wins >= r[j].wins {
      if j == k {
      } else if i == k {
        assert r[j] == rows[j - 1];
        assert rows[j - 1].wins <= rows[k].wins || j - 1 == k;
      } else if j < k {
      } else if i > k {
        assert r[i] == rows[i - 1] && r[j] == rows[j - 1];
      } else {
        assert r[i] == rows[i] && r[j] == rows[j - 1];
      }
    }
  }

  lemma InsertIds(x: Standing, rows: seq<Standing>, k: nat, r: seq<Standing>)
    requires InsertedAt(x, rows, k, r)
    ensures Ids(r) == Ids(rows) + {x.id}
    ensures DistinctIds(rows) && x.id !in Ids(rows) ==> DistinctIds(r)
    ensures forall i :: 0 <= i < |r| ==> r[i] == x || r[i] in rows
  {
    forall i | 0 <= i < |r| && i != k ensures r[i] in rows && r[i].id in Ids(rows) {
      var j := if i < k then i else i - 1;
      assert r[i] == rows[j];
    }
    forall id | id in Ids(rows) ensures id in Ids(r) {
      var j :| 0 <= j < |rows| && rows[j].id == id;
      var i := if j < k then j else j + 1;
      assert r[i] == rows[j];
    }
    assert r[k].id == x.id;
    if DistinctIds(rows) && x.id !in Ids(rows) {
      forall i, j | 0 <= i < j < |r| ensures r[i].id != r[j].id {
        if i != k && j != k {
          var i' := if i < k then i else i - 1;
          var j' := if j < k then j else j - 1;
          assert r[i] == rows[i'] && r[j] == rows[j'] && i' < j';
        }
      }
    }
  }

  /** The standings query: every registered player's row, ordered by wins
      with the most wins first. */
  function PlayerStandings(m: map<PlayerId, Record>): (rows: seq<Standing>)
    ensures IsStandingsOf(m, rows)
    decreases |m.Keys|
  {
    if m.Keys == {} then []
    else
      var id := MinId(m.Keys);
      var rest := m - {id};
      assert rest.Keys == m.Keys - {id};
      var tail := PlayerStandings(rest);
      var rows := Insert(Standing(id, m[id].name, m[id].wins, m[id].matches), tail);
      StandingsStep(m, id, tail, rows);
      rows
  }

  lemma StandingsStep(m: map<PlayerId, Record>, id: PlayerId, tail: seq<Standing>, rows: seq<Standing>)
    requires id in m
    requires IsStandingsOf(m - {id}, tail)
    requires |rows| == |tail| + 1
    requires Ids(rows) == Ids(tail) + {id}
    requires ByWinsDescending(rows)
    requires DistinctIds(tail) && id !in Ids(tail) ==> DistinctIds(rows)
    requires forall i :: 0 <= i < |rows| ==> rows[i] == Standing(id, m[id].name, m[id].wins, m[id].matches) || rows[i] in tail
    ensures IsStandingsOf(m, rows)
  {
    assert (m - {id}).Keys == m.Keys - {id};
    forall i | 0 <= i < |rows| ensures RowOf(m, rows[i]) {
      if rows[i] != Standing(id, m[id].name, m[id].wins, m[id].matches) {
        var j :| 0 <= j < |tail| && tail[j] == rows[i];
        assert RowOf(m - {id}, tail[j]);
      }
    }
  }

  /** The standings of the stored players, as a caller obtains them. */
  method ComputeStandings(t: Tournament) returns (rows: seq<Standing>)
    ensures IsStandingsOf(t.players, rows)
  {
    rows := PlayerStandings(t.players);
  }

  /** After the match records are wiped, the standings still list every
      registered player once, each at no wins and no matches. */
  lemma StandingsAfterReset(t: Tournament)
    ensures |PlayerStandings(DeleteMatches(t).players)| == |t.players.Keys|
    ensures Ids(PlayerStandings(DeleteMatches(t).players)) == t.players.Keys
    ensures forall i :: 0 <= i < |PlayerStandings(DeleteMatches(t).players)| ==>
      PlayerStandings(DeleteMatches(t).players)[i].wins == 0 && PlayerStandings(DeleteMatches(t).players)[i].matches == 0
  {
    var m := DeleteMatches(t).players;
    var rows := PlayerStandings(m);
    forall i | 0 <= i < |rows| ensures rows[i].wins == 0 && rows[i].matches == 0 {
      assert RowOf(m, rows[i]);
    }
  }
}
