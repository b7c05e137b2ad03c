/** Standings of a bracket (lib/bracket.ts, `calculateStandings`): every team
    starts at zero, each completed match with a truthy winner credits a win
    to the winner and a loss to the other team when there is one, the
    champion is placed first, and the table is sorted by wins, most first,
    keeping the order of teams with equal wins. */
module Standings {
  import opened Wrappers
  import opened Brackets

  datatype Standing = Standing(
    teamId: string,
    teamNumber: nat,
    teamName: Option<string>,
    wins: nat,
    losses: nat,
    placing: nat)

  /** `teams.map(...)`: one zeroed standing per team, in team order. */
  function InitStandings(teams: seq<BracketTeam>): (r: seq<Standing>)
    ensures |r| == |teams|
    ensures forall k :: 0 <= k < |r| ==>
      r[k] == Standing(teams[k].id, teams[k].teamNumber, teams[k].teamName, 0, 0, 0)
  {
    seq(|teams|, k requires 0 <= k < |teams| =>
      Standing(teams[k].id, teams[k].teamNumber, teams[k].teamName, 0, 0, 0))
  }

  /** The matches in the order the nested loops visit them: round by round,
      each round in order. */
  function AllMatches(rounds: seq<Round>): (r: seq<Match>)
    ensures forall m :: m in r <==> exists k :: 0 <= k < |rounds| && m in rounds[k].matches
  {
    if |rounds| == 0 then []
    else
      assert forall k :: 1 <= k < |rounds| ==> rounds[k] == rounds[1..][k - 1];
      rounds[0].matches + AllMatches(rounds[1..])
  }

  // ----- what one match is worth --------------------------------------------------------

  /** A match counts when it is completed and its winner is truthy. */
  predicate Counts(m: Match) {
    m.status == Completed && IsSet(m.winnerId)
  }

  /** The team a counting match credits with a win. */
  function WinCredit(m: Match): Option<string> {
    if Counts(m) then m.winnerId else None
  }

  /** The team a counting match credits with a loss: the first team unless it
      is the winner, else the second; nobody when that slot is not truthy. */
  function LossCredit(m: Match): Option<string> {
    if Counts(m) then
      var loser := if m.team1Id == m.winnerId then m.team2Id else m.team1Id;
      if IsSet(loser) then loser else None
    else None
  }

  /** A bye (a completed match won by its only team) is a win and no loss. */
  lemma ByeIsWinWithoutLoss(m: Match)
    requires m.status == Completed && IsSet(m.team1Id) && m.winnerId == m.team1Id && m.team2Id.None?
    ensures WinCredit(m) == m.team1Id && LossCredit(m).None?
  {
  }

  /** A played match credits the winner with a win and the other team with a
      loss; nobody gets both. */
  lemma PlayedMatchCredits(m: Match)
    requires Counts(m) && IsSet(m.team1Id) && IsSet(m.team2Id) && m.team1Id != m.team2Id
    requires m.winnerId == m.team1Id || m.winnerId == m.team2Id
    ensures WinCredit(m) == m.winnerId
    ensures LossCredit(m) == if m.winnerId == m.team1Id then m.team2Id else m.team1Id
    ensures WinCredit(m) != LossCredit(m)
  {
  }

  // ----- the tally ------------------------------------------------------------------------

  /** `standings.find(s => s.teamId === id)`: the first standing with the id. */
  function FindStanding(ss: seq<Standing>, id: string): (r: Option<nat>)
    ensures r.Some? ==> r.value < |ss| && ss[r.value].teamId == id
    ensures r.Some? ==> forall j :: 0 <= j < r.value ==> ss[j].teamId != id
    ensures r.None? <==> forall j :: 0 <= j < |ss| ==> ss[j].teamId != id
  {
    if |ss| == 0 then None
    else if ss[0].teamId == id then Some(0)
    else
      match FindStanding(ss[1..], id)
      case None => None
      case Some(j) => Some(j + 1)
  }

  /** `ss[j]` is the first standing with the id. */
  predicate FirstWithId(ss: seq<Standing>, j: nat, id: string)
    requires j < |ss|
  {
    ss[j].teamId == id && forall i :: 0 <= i < j ==> ss[i].teamId != id
  }

  /** Adds a win or a loss to the first standing with the id, if any; every
      other standing stays as it was. */
  function Credit(ss: seq<Standing>, id: Option<string>, win: bool): (r: seq<Standing>)
    ensures |r| == |ss|
    ensures forall j :: 0 <= j < |ss| && !(id.Some? && FirstWithId(ss, j, id.value)) ==> r[j] == ss[j]
    ensures forall j :: 0 <= j < |ss| && id.Some? && FirstWithId(ss, j, id.value) ==>
      r[j] == if win then ss[j].(wins := ss[j].wins + 1) else ss[j].(losses := ss[j].losses + 1)
  {
    if id.None? then ss
    else
      match FindStanding(ss, id.value)
      case None => ss
      case Some(k) => ss[k := if win then ss[k].(wins := ss[k].wins + 1) else ss[k].(losses := ss[k].losses + 1)]
  }

  /** The loop body for one match: only wins and losses change, and they
      only grow. */
  function TallyMatch(ss: seq<Standing>, m: Match): (r: seq<Standing>)
    ensures |r| == |ss|
    ensures forall j :: 0 <= j < |ss| ==> r[j].(wins := ss[j].wins, losses := ss[j].losses) == ss[j]
    ensures forall j :: 0 <= j < |ss| ==> ss[j].wins <= r[j].wins && ss[j].losses <= r[j].losses
  {
    Credit(Credit(ss, WinCredit(m), true), LossCredit(m), false)
  }

  /** The loop over all matches: only wins and losses change, and they only
      grow; `StandingsAreExpected` counts them. */
  function Tally(ss: seq<Standing>, ms: seq<Match>): (r: seq<Standing>)
    ensures |r| == |ss|
    ensures forall j :: 0 <= j < |ss| ==> r[j].(wins := ss[j].wins, losses := ss[j].losses) == ss[j]
    ensures forall j :: 0 <= j < |ss| ==> ss[j].wins <= r[j].wins && ss[j].losses <= r[j].losses
    decreases |ms|
  {
    if |ms| == 0 then ss else Tally(TallyMatch(ss, ms[0]), ms[1..])
  }

  /** `championTeam.placing = 1` for the first standing with the champion's
      id, when the champion is truthy. */
  function MarkChampion(ss: seq<Standing>, champion: Option<string>): (r: seq<Standing>)
    ensures |r| == |ss|
    ensures forall j :: 0 <= j < |ss| ==>
      r[j] == if IsSet(champion) && FirstWithId(ss, j, champion.value) then ss[j].(placing := 1) else ss[j]
  {
    if !IsSet(champion) then ss
    else
      match FindStanding(ss, champion.value)
      case None => ss
      case Some(k) => ss[k := ss[k].(placing := 1)]
  }

  // ----- sorting by wins ------------------------------------------------------------------

  predicate SortedByWins(ss: seq<Standing>) {
    forall i, j :: 0 <= i < j < |ss| ==> ss[i].wins >= ss[j].wins
  }

  /** Puts `x` before the first standing with no more wins than it. */
  function InsertByWins(x: Standing, ss: seq<Standing>): (r: seq<Standing>)
    ensures |r| == |ss| + 1
    ensures forall y :: y in r ==> y == x || y in ss
    ensures SortedByWins(ss) ==> SortedByWins(r)
  {
    if |ss| == 0 || x.wins >= ss[0].wins then [x] + ss
    else
      var rest := InsertByWins(x, ss[1..]);
      InsertBelow(x, ss, rest);
      [ss[0]] + rest
  }

  /** Inserting a standing with fewer wins than the head of a sorted list
      gives standings no better than that head. */
  lemma InsertBelow(x: Standing, ss: seq<Standing>, rest: seq<Standing>)
    requires |ss| > 0 && x.wins < ss[0].wins
    requires forall y :: y in rest ==> y == x || y in ss[1..]
    ensures SortedByWins(ss) ==> forall j :: 0 <= j < |rest| ==> rest[j].wins <= ss[0].wins
  {
    if SortedByWins(ss) {
      forall j | 0 <= j < |rest|
        ensures rest[j].wins <= ss[0].wins
      {
        assert rest[j] in rest;
      }
    }
  }

  /** `standings.sort((a, b) => b.wins - a.wins)`, which is stable: an
      insertion sort that inserts each standing in front of the later ones
      with as many wins. */
  function SortByWins(ss: seq<Standing>): (r: seq<Standing>)
    ensures |r| == |ss|
    ensures SortedByWins(r)
  {
    if |ss| == 0 then [] else InsertByWins(ss[0], SortByWins(ss[1..]))
  }

  lemma {:induction false} InsertPermutes(x: Standing, ss: seq<Standing>)
    ensures multiset(InsertByWins(x, ss)) == multiset(ss) + multiset{x}
    decreases |ss|
  {
    if |ss| > 0 && x.wins < ss[0].wins {
      InsertPermutes(x, ss[1..]);
      assert ss == [ss[0]] + ss[1..];
    }
  }

  /** Sorting keeps every standing, as often as it occurs. */
  lemma {:induction false} SortPermutes(ss: seq<Standing>)
    ensures multiset(SortByWins(ss)) == multiset(ss)
    decreases |ss|
  {
    if |ss| > 0 {
      SortPermutes(ss[1..]);
      InsertPermutes(ss[0], SortByWins(ss[1..]));
      assert ss == [ss[0]] + ss[1..];
    }
  }

  /** The standings with `w` wins, in order. */
  function WithWins(ss: seq<Standing>, w: nat): (r: seq<Standing>)
    ensures |r| <= |ss|
  {
    if |ss| == 0 then []
    else if ss[0].wins == w then [ss[0]] + WithWins(ss[1..], w)
    else WithWins(ss[1..], w)
  }

  lemma {:induction false} InsertStable(x: Standing, ss: seq<Standing>, w: nat)
    ensures WithWins(InsertByWins(x, ss), w) == (if x.wins == w then [x] else []) + WithWins(ss, w)
    decreases |ss|
  {
    if |ss| > 0 && x.wins < ss[0].wins {
      InsertStable(x, ss[1..], w);
      assert ([ss[0]] + InsertByWins(x, ss[1..]))[1..] == InsertByWins(x, ss[1..]);
    }
  }

  /** Sorting is stable: standings with equal wins keep their order. */
  lemma {:induction false} SortStable(ss: seq<Standing>, w: nat)
    ensures WithWins(SortByWins(ss), w) == WithWins(ss, w)
    decreases |ss|
  {
    if |ss| > 0 {
      SortStable(ss[1..], w);
      InsertStable(ss[0], SortByWins(ss[1..]), w);
    }
  }

  // ----- the standings ------------------------------------------------------------------

  /** `calculateStandings(rounds, teams)`. The champion is read from the
      finals' first match, which must exist. */
  function CalculateStandings(rounds: seq<Round>, teams: seq<BracketTeam>): (r: seq<Standing>)
    requires HasFinalsMatch(rounds)
    ensures |r| == |teams|
    ensures SortedByWins(r)
  {
    var tallied := Tally(InitStandings(teams), AllMatches(rounds));
    SortByWins(MarkChampion(tallied, GetChampion(rounds)))
  }

  // ----- the reference table --------------------------------------------------------------

  /** Counting matches that credit `id` with a win. */
  function CountWins(ms: seq<Match>, id: string): nat {
    if |ms| == 0 then 0 else (if WinCredit(ms[0]) == Some(id) then 1 else 0) + CountWins(ms[1..], id)
  }

  /** Counting matches that credit `id` with a loss. */
  function CountLosses(ms: seq<Match>, id: string): nat {
    if |ms| == 0 then 0 else (if LossCredit(ms[0]) == Some(id) then 1 else 0) + CountLosses(ms[1..], id)
  }

  predicate DistinctTeamIds(teams: seq<BracketTeam>) {
    forall i, j :: 0 <= i < j < |teams| ==> teams[i].id != teams[j].id
  }

  predicate DistinctStandingIds(ss: seq<Standing>) {
    forall i, j :: 0 <= i < j < |ss| ==> ss[i].teamId != ss[j].teamId
  }

  /** The table the standings should hold, team by team: wins and losses
      counted over every match, placing 1 for the champion and 0 for everyone
      else. */
  function Expected(rounds: seq<Round>, teams: seq<BracketTeam>): (r: seq<Standing>)
    requires HasFinalsMatch(rounds)
    ensures |r| == |teams|
  {
    var ms := AllMatches(rounds);
    var champion := GetChampion(rounds);
    seq(|teams|, k requires 0 <= k < |teams| =>
      Standing(teams[k].id, teams[k].teamNumber, teams[k].teamName,
        CountWins(ms, teams[k].id), CountLosses(ms, teams[k].id),
        if IsSet(champion) && champion.value == teams[k].id then 1 else 0))
  }

  /** With distinct ids the lookup finds exactly the standing with the id. */
  lemma FindDistinct(ss: seq<Standing>, id: string, k: nat)
    requires DistinctStandingIds(ss) && k < |ss|
    ensures FindStanding(ss, id) == Some(k) <==> ss[k].teamId == id
  {
    if ss[k].teamId == id {
      var found := FindStanding(ss, id);
      assert found.Some?;
      assert ss[found.value].teamId == id;
    }
  }

  /** With distinct ids, crediting `id` adds one to its standing only. */
  lemma CreditDistinct(ss: seq<Standing>, id: Option<string>, win: bool, k: nat)
    requires DistinctStandingIds(ss) && k < |ss|
    ensures var r := Credit(ss, id, win);
      var hit := if id == Some(ss[k].teamId) then 1 else 0;
      r[k] == if win then ss[k].(wins := ss[k].wins + hit) else ss[k].(losses := ss[k].losses + hit)
  {
    if id.Some? {
      FindDistinct(ss, id.value, k);
    }
  }

  lemma CreditKeepsIds(ss: seq<Standing>, id: Option<string>, win: bool)
    ensures forall k :: 0 <= k < |ss| ==> Credit(ss, id, win)[k].teamId == ss[k].teamId
  {
  }

  /** With distinct ids one match adds its win and its loss to the standings
      of the teams it credits. */
  lemma TallyMatchDistinct(ss: seq<Standing>, m: Match, k: nat)
    requires DistinctStandingIds(ss) && k < |ss|
    ensures var r := TallyMatch(ss, m);
      && DistinctStandingIds(r)
      && r[k] == ss[k].(
           wins := ss[k].wins + (if WinCredit(m) == Some(ss[k].teamId) then 1 else 0),
           losses := ss[k].losses + (if LossCredit(m) == Some(ss[k].teamId) then 1 else 0))
  {
    var s1 := Credit(ss, WinCredit(m), true);
    CreditKeepsIds(ss, WinCredit(m), true);
    CreditKeepsIds(s1, LossCredit(m), false);
    CreditDistinct(ss, WinCredit(m), true, k);
    CreditDistinct(s1, LossCredit(m), false, k);
  }

  /** With distinct ids the tally adds each team's counted wins and losses. */
  lemma {:induction false} TallyDistinct(ss: seq<Standing>, ms: seq<Match>, k: nat)
    requires DistinctStandingIds(ss) && k < |ss|
    ensures var r := Tally(ss, ms);
      && DistinctStandingIds(r)
      && r[k] == ss[k].(wins := ss[k].wins + CountWins(ms, ss[k].teamId),
                        losses := ss[k].losses + CountLosses(ms, ss[k].teamId))
    decreases |ms|
  {
    if |ms| > 0 {
      TallyMatchDistinct(ss, ms[0], k);
      TallyDistinct(TallyMatch(ss, ms[0]), ms[1..], k);
    }
  }

  /** With distinct ids the champion's standing, and only it, is placed
      first. */
  lemma MarkChampionDistinct(ss: seq<Standing>, champion: Option<string>, k: nat)
    requires DistinctStandingIds(ss) && k < |ss|
    ensures MarkChampion(ss, champion)[k] ==
      if IsSet(champion) && champion.value == ss[k].teamId then ss[k].(placing := 1) else ss[k]
  {
    if IsSet(champion) {
      FindDistinct(ss, champion.value, k);
    }
  }

  /** With distinct team ids the standings are the expected table, sorted:
      the same rows, each as often, and standings with equal wins in team
      order. */
  lemma StandingsAreExpected(rounds: seq<Round>, teams: seq<BracketTeam>)
    requires HasFinalsMatch(rounds) && DistinctTeamIds(teams)
    ensures multiset(CalculateStandings(rounds, teams)) == multiset(Expected(rounds, teams))
    ensures forall w: nat :: WithWins(CalculateStandings(rounds, teams), w) == WithWins(Expected(rounds, teams), w)
  {
    var init := InitStandings(teams);
    var ms := AllMatches(rounds);
    var tallied := Tally(init, ms);
    var marked := MarkChampion(tallied, GetChampion(rounds));
    assert DistinctStandingIds(init);
    forall k | 0 <= k < |teams|
      ensures marked[k] == Expected(rounds, teams)[k]
    {
      TallyDistinct(init, ms, k);
      MarkChampionDistinct(tallied, GetChampion(rounds), k);
    }
    assert marked == Expected(rounds, teams);
    SortPermutes(marked);
    forall w: nat
      ensures WithWins(SortByWins(marked), w) == WithWins(marked, w)
    {
      SortStable(marked, w);
    }
  }

  /** With distinct team ids the champion's row is in the table with placing
      1, and every other team's row has placing 0. */
  lemma ChampionPlacedFirst(rounds: seq<Round>, teams: seq<BracketTeam>, k: nat)
    requires HasFinalsMatch(rounds) && DistinctTeamIds(teams) && k < |teams|
    ensures var s := Expected(rounds, teams)[k];
      && s in CalculateStandings(rounds, teams)
      && s.teamId == teams[k].id
      && (s.placing == 1 <==> GetChampion(rounds) == Some(teams[k].id) && teams[k].id != "")
  {
    StandingsAreExpected(rounds, teams);
    var s := Expected(rounds, teams)[k];
    assert s in multiset(Expected(rounds, teams));
  }
}
