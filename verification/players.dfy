/** The roster entities the shuffler works on (lib/shuffle.ts, `Player` and
    `Team`), with the small sequence functions every other shuffle module uses. */
module Players {

  /** A registered player. `mmr` is a natural number because registration only
      accepts whole ratings from 0 to 15000; roles and status stay free strings,
      as in the source. */
  datatype Player = Player(
    id: string,
    playerName: string,
    mmr: nat,
    preferredRoles: seq<string>,
    status: string)

  /** A team as returned by the shuffler: 1-based number, members, rounded
      average rating and total rating. */
  datatype Team = Team(teamNumber: nat, players: seq<Player>, averageMmr: int, totalMmr: int)

  const PresentStatus: string := "Present"

  predicate IsPresent(p: Player) {
    p.status == PresentStatus
  }

  /** `players.filter(p => p.status === 'Present')`. */
  function Present(players: seq<Player>): (r: seq<Player>)
    ensures |r| <= |players|
    ensures forall p :: p in r <==> p in players && IsPresent(p)
  {
    if |players| == 0 then []
    else
      var rest := Present(players[1..]);
      assert players == [players[0]] + players[1..];
      if IsPresent(players[0]) then [players[0]] + rest else rest
  }

  /** Filtering keeps each present player as often as the roster holds it and
      drops every other player. */
  lemma {:induction false} PresentCounts(players: seq<Player>, p: Player)
    ensures multiset(Present(players))[p] == if IsPresent(p) then multiset(players)[p] else 0
    decreases |players|
  {
    if |players| > 0 {
      PresentCounts(players[1..], p);
      assert players == [players[0]] + players[1..];
    }
  }

  /** Sum of the members' ratings (`players.reduce((sum, p) => sum + p.mmr, 0)`). */
  function TotalMmr(ps: seq<Player>): (t: nat)
    ensures |ps| == 0 ==> t == 0
    ensures forall i :: 0 <= i < |ps| ==> ps[i].mmr <= t
    ensures t == 0 <==> forall i :: 0 <= i < |ps| ==> ps[i].mmr == 0
  {
    if |ps| == 0 then 0 else ps[0].mmr + TotalMmr(ps[1..])
  }

  /** The total of two groups put together is the sum of their totals. */
  lemma {:induction false} TotalMmrAppend(a: seq<Player>, b: seq<Player>)
    ensures TotalMmr(a + b) == TotalMmr(a) + TotalMmr(b)
    decreases |a|
  {
    if |a| > 0 {
      assert (a + b)[1..] == a[1..] + b;
      TotalMmrAppend(a[1..], b);
    } else {
      assert a + b == b;
    }
  }

  /** Every player placed in some team, team by team. */
  function Members(teams: seq<seq<Player>>): (r: seq<Player>)
    ensures forall p :: p in r <==> exists t :: 0 <= t < |teams| && p in teams[t]
  {
    if |teams| == 0 then []
    else
      var rest := Members(teams[1..]);
      assert forall t :: 1 <= t < |teams| ==> teams[t] == teams[1..][t - 1];
      teams[0] + rest
  }

  function Ids(ps: seq<Player>): (r: set<string>)
    ensures forall p :: p in ps ==> p.id in r
    ensures forall i :: i in r ==> exists p :: p in ps && p.id == i
  {
    set p | p in ps :: p.id
  }

  /** No two positions of `ps` hold players with the same id. */
  predicate DistinctIds(ps: seq<Player>) {
    forall i, j :: 0 <= i < j < |ps| ==> ps[i].id != ps[j].id
  }

  /** Multiset of members is additive over a split of the team list. */
  lemma {:induction false} MembersAppend(a: seq<seq<Player>>, b: seq<seq<Player>>)
    ensures Members(a + b) == Members(a) + Members(b)
    decreases |a|
  {
    if |a| == 0 {
      assert a + b == b;
    } else {
      assert (a + b)[1..] == a[1..] + b;
      MembersAppend(a[1..], b);
    }
  }
}
