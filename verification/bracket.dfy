/** The single-elimination bracket's data (lib/bracket.ts): teams, matches and
    rounds, the match ids `r{round}m{match}`, the lookup by id that every
    operation starts from, and the two read-only queries on the finals. */
module Brackets {
  import opened Wrappers
  import opened Text

  datatype Status = Pending | InProgress | Completed

  /** The two errors the bracket operations throw. */
  datatype BracketError =
    | NotEnoughTeams
    | MatchNotFound

  /** A bracket entrant; `teamName` is nullable. */
  datatype BracketTeam = BracketTeam(
    id: string,
    teamNumber: nat,
    teamName: Option<string>,
    averageMmr: int,
    playerIds: seq<string>)

  /** A match; the two slots, the winner and the next match's id are
      nullable. */
  datatype Match = Match(
    id: string,
    roundNumber: nat,
    matchNumber: nat,
    team1Id: Option<string>,
    team2Id: Option<string>,
    winnerId: Option<string>,
    status: Status,
    nextMatchId: Option<string>)

  datatype Round = Round(roundNumber: nat, roundName: string, matches: seq<Match>)

  /** The id `r{round}m{match}`. */
  function MatchId(round: nat, number: nat): string {
    "r" + NatToString(round) + "m" + NatToString(number)
  }

  /** Different (round, match) pairs never share an id. */
  lemma MatchIdInjective(r1: nat, m1: nat, r2: nat, m2: nat)
    requires MatchId(r1, m1) == MatchId(r2, m2)
    ensures r1 == r2 && m1 == m2
  {
    var a, b := NatToString(r1), NatToString(m1);
    var c, d := NatToString(r2), NatToString(m2);
    var x, y := a + ['m'] + b, c + ['m'] + d;
    assert MatchId(r1, m1) == ['r'] + x;
    assert MatchId(r2, m2) == ['r'] + y;
    assert (['r'] + x)[1..] == x && (['r'] + y)[1..] == y;
    DigitsBeforeSeparator(a, c, 'm', b, d);
    NatToStringInjective(r1, r2);
    NatToStringInjective(m1, m2);
  }

  /** Match ids are never empty, so a next-match id is always truthy. */
  lemma MatchIdNonEmpty(round: nat, number: nat)
    ensures MatchId(round, number) != ""
  {
    assert MatchId(round, number)[0] == 'r';
  }

  // ----- positions ------------------------------------------------------------

  /** Where a match sits: the index of its round and its index in that round. */
  datatype Pos = Pos(round: nat, index: nat)

  predicate ValidPos(rounds: seq<Round>, p: Pos) {
    p.round < |rounds| && p.index < |rounds[p.round].matches|
  }

  function At(rounds: seq<Round>, p: Pos): Match
    requires ValidPos(rounds, p)
  {
    rounds[p.round].matches[p.index]
  }

  /** The bracket with the match at `p` replaced by `m`. */
  function Update(rounds: seq<Round>, p: Pos, m: Match): (r: seq<Round>)
    requires ValidPos(rounds, p)
    ensures |r| == |rounds|
    ensures forall k :: 0 <= k < |r| ==>
      && r[k].roundNumber == rounds[k].roundNumber
      && r[k].roundName == rounds[k].roundName
      && |r[k].matches| == |rounds[k].matches|
    ensures At(r, p) == m
    ensures forall q :: ValidPos(rounds, q) && q != p ==> At(r, q) == At(rounds, q)
  {
    var round := rounds[p.round];
    rounds[p.round := round.(matches := round.matches[p.index := m])]
  }

  /** `round.matches.find(m => m.id === matchId)`: the first index holding the
      id. */
  function FindInRound(ms: seq<Match>, id: string): (r: Option<nat>)
    ensures r.Some? ==> r.value < |ms| && ms[r.value].id == id
    ensures r.Some? ==> forall j :: 0 <= j < r.value ==> ms[j].id != id
    ensures r.None? <==> forall j :: 0 <= j < |ms| ==> ms[j].id != id
  {
    if |ms| == 0 then None
    else if ms[0].id == id then Some(0)
    else
      match FindInRound(ms[1..], id)
      case None => None
      case Some(j) => Some(j + 1)
  }

  /** `findMatchInRounds` / `getMatchById`: rounds are searched in order and
      the first round holding the id wins. */
  function FindMatch(rounds: seq<Round>, id: string): (r: Option<Pos>)
    ensures r.Some? ==> ValidPos(rounds, r.value) && At(rounds, r.value).id == id
    ensures r.Some? ==> forall k, j :: 0 <= k < r.value.round && 0 <= j < |rounds[k].matches| ==>
      rounds[k].matches[j].id != id
    ensures r.Some? ==> forall j :: 0 <= j < r.value.index ==>
      rounds[r.value.round].matches[j].id != id
    ensures r.None? <==> forall q :: ValidPos(rounds, q) ==> At(rounds, q).id != id
  {
    FindMatchFrom(rounds, id, 0)
  }

  /** The search from round index `from` on. */
  function FindMatchFrom(rounds: seq<Round>, id: string, from: nat): (r: Option<Pos>)
    requires from <= |rounds|
    ensures r.Some? ==> from <= r.value.round && ValidPos(rounds, r.value) && At(rounds, r.value).id == id
    ensures r.Some? ==> forall k, j :: from <= k < r.value.round && 0 <= j < |rounds[k].matches| ==>
      rounds[k].matches[j].id != id
    ensures r.Some? ==> forall j :: 0 <= j < r.value.index ==>
      rounds[r.value.round].matches[j].id != id
    ensures r.None? <==> forall q :: ValidPos(rounds, q) && from <= q.round ==> At(rounds, q).id != id
    decreases |rounds| - from
  {
    if from == |rounds| then None
    else
      match FindInRound(rounds[from].matches, id)
      case Some(j) => Some(Pos(from, j))
      case None =>
        assert forall q :: ValidPos(rounds, q) && q.round == from ==>
          At(rounds, q) == rounds[from].matches[q.index];
        FindMatchFrom(rounds, id, from + 1)
  }

  /** `getMatchById(rounds, matchId)`: the first match with the id, or null. */
  function GetMatchById(rounds: seq<Round>, id: string): (r: Option<Match>)
    ensures r.Some? <==> exists q :: ValidPos(rounds, q) && At(rounds, q).id == id
    ensures r.Some? ==> r.value.id == id
  {
    match FindMatch(rounds, id)
    case None => None
    case Some(p) => Some(At(rounds, p))
  }

  /** Two brackets have the same ids at the same places. */
  ghost predicate SameIds(a: seq<Round>, b: seq<Round>) {
    && |a| == |b|
    && (forall k :: 0 <= k < |a| ==> |a[k].matches| == |b[k].matches|)
    && (forall q :: ValidPos(a, q) ==> At(a, q).id == At(b, q).id)
  }

  /** The lookup depends on the ids alone, so replacing matches without
      changing their ids leaves every lookup where it was. */
  lemma FindMatchSameIds(a: seq<Round>, b: seq<Round>, id: string)
    requires SameIds(a, b)
    ensures FindMatch(a, id) == FindMatch(b, id)
  {
    var fa, fb := FindMatch(a, id), FindMatch(b, id);
    if fa.Some? {
      assert At(b, fa.value).id == id;
    }
    if fb.Some? {
      assert At(a, fb.value).id == id;
    }
  }

  /** Replacing a match by one with the same id keeps all ids in place. */
  lemma UpdateSameIds(rounds: seq<Round>, p: Pos, m: Match)
    requires ValidPos(rounds, p) && m.id == At(rounds, p).id
    ensures SameIds(rounds, Update(rounds, p, m))
  {
  }

  /** Writing back the match already at `p` changes nothing. */
  lemma UpdateAtSelf(rounds: seq<Round>, p: Pos)
    requires ValidPos(rounds, p)
    ensures Update(rounds, p, At(rounds, p)) == rounds
  {
    assert rounds[p.round].matches[p.index := At(rounds, p)] == rounds[p.round].matches;
  }

  /** A second write to the same place overrides the first. */
  lemma UpdateTwice(rounds: seq<Round>, p: Pos, a: Match, b: Match)
    requires ValidPos(rounds, p)
    ensures Update(Update(rounds, p, a), p, b) == Update(rounds, p, b)
  {
    RoundsExt(Update(Update(rounds, p, a), p, b), Update(rounds, p, b));
  }

  /** Two brackets with the same rounds holding the same matches are
      equal. */
  lemma RoundsExt(a: seq<Round>, b: seq<Round>)
    requires |a| == |b|
    requires forall k :: 0 <= k < |a| ==>
      && a[k].roundNumber == b[k].roundNumber
      && a[k].roundName == b[k].roundName
      && |a[k].matches| == |b[k].matches|
    requires forall q :: ValidPos(a, q) ==> At(a, q) == At(b, q)
    ensures a == b
  {
    forall k | 0 <= k < |a|
      ensures a[k] == b[k]
    {
      forall j | 0 <= j < |a[k].matches|
        ensures a[k].matches[j] == b[k].matches[j]
      {
        assert ValidPos(a, Pos(k, j));
      }
    }
  }

  /** When every id names one match, the lookup finds each match at its own
      place. */
  lemma FindMatchUnique(rounds: seq<Round>, p: Pos)
    requires ValidPos(rounds, p)
    requires forall q :: ValidPos(rounds, q) && q != p ==> At(rounds, q).id != At(rounds, p).id
    ensures FindMatch(rounds, At(rounds, p).id) == Some(p)
  {
    var found := FindMatch(rounds, At(rounds, p).id);
    assert found.Some?;
    assert At(rounds, found.value).id == At(rounds, p).id;
  }

  // ----- queries on the finals ---------------------------------------------------

  /** The last round, when there is one, has a match to read. The source
      reads `finals.matches[0]` without checking. */
  predicate HasFinalsMatch(rounds: seq<Round>) {
    |rounds| == 0 || |rounds[|rounds| - 1].matches| > 0
  }

  function FinalsMatch(rounds: seq<Round>): Match
    requires |rounds| > 0 && HasFinalsMatch(rounds)
  {
    rounds[|rounds| - 1].matches[0]
  }

  /** `getChampion(rounds)`: the winner of the last round's first match, or
      null when there are no rounds. */
  function GetChampion(rounds: seq<Round>): (r: Option<string>)
    requires HasFinalsMatch(rounds)
    ensures |rounds| == 0 ==> r.None?
    ensures |rounds| > 0 ==> r == rounds[|rounds| - 1].matches[0].winnerId
  {
    if |rounds| == 0 then None else FinalsMatch(rounds).winnerId
  }

  /** `isBracketComplete(rounds)`: the finals match is completed and has a
      winner. */
  function IsBracketComplete(rounds: seq<Round>): (r: bool)
    requires HasFinalsMatch(rounds)
    ensures r <==> |rounds| > 0 && FinalsMatch(rounds).status == Completed && FinalsMatch(rounds).winnerId.Some?
  {
    if |rounds| == 0 then false
    else FinalsMatch(rounds).status == Completed && FinalsMatch(rounds).winnerId != None
  }

  /** A complete bracket has a champion, and it is the finals' winner. */
  lemma CompleteHasChampion(rounds: seq<Round>)
    requires HasFinalsMatch(rounds) && IsBracketComplete(rounds)
    ensures GetChampion(rounds).Some?
    ensures GetChampion(rounds) == FinalsMatch(rounds).winnerId
  {
  }
}
