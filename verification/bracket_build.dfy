/** Building a single-elimination bracket (lib/bracket.ts,
    `generateSingleEliminationBracket`, `seedTeamsIntoFirstRound` and
    `getRoundName`): the field is padded to the next power of two, every round
    gets its matches, each match is wired to the match its winner moves on to,
    and the teams are seeded into the first round in order. */
module BracketBuild {
  import opened Wrappers
  import opened Text
  import opened Brackets

  function Pow2(e: nat): (p: nat)
    ensures p >= 1
  {
    if e == 0 then 1 else 2 * Pow2(e - 1)
  }

  /** `Math.ceil(Math.log2(n))`: the least `e` with `n <= 2^e`. */
  function CeilLog2(n: nat): (e: nat)
    requires n >= 1
    ensures n <= Pow2(e)
    ensures e > 0 ==> Pow2(e - 1) < n
  {
    LeastCoverBounds(n, 0);
    LeastCover(n, 0)
  }

  /** The least exponent from `e` upwards whose power of two reaches `n`. */
  function LeastCover(n: nat, e: nat): nat
    decreases n - Pow2(e)
  {
    if n <= Pow2(e) then e else LeastCover(n, e + 1)
  }

  lemma {:induction false} LeastCoverBounds(n: nat, e: nat)
    requires e == 0 || Pow2(e - 1) < n
    ensures n <= Pow2(LeastCover(n, e))
    ensures LeastCover(n, e) > 0 ==> Pow2(LeastCover(n, e) - 1) < n
    decreases n - Pow2(e)
  {
    if n > Pow2(e) {
      LeastCoverBounds(n, e + 1);
    }
  }

  // ----- round names --------------------------------------------------------------

  /** `getRoundName(roundNumber, totalRounds)`; `RoundNameCases` states what
      it returns. */
  function GetRoundName(roundNumber: nat, totalRounds: nat): string {
    var roundsFromEnd := totalRounds as int - roundNumber as int;
    if roundsFromEnd == 0 then "Finals"
    else if roundsFromEnd == 1 then "Semi-Finals"
    else if roundsFromEnd == 2 then "Quarter-Finals"
    else "Round " + NatToString(roundNumber)
  }

  /** The last three rounds are named by their distance from the end; the
      others by their number. */
  lemma RoundNameCases(roundNumber: nat, totalRounds: nat)
    requires roundNumber <= totalRounds
    ensures totalRounds - roundNumber == 0 <==> GetRoundName(roundNumber, totalRounds) == "Finals"
    ensures totalRounds - roundNumber == 1 <==> GetRoundName(roundNumber, totalRounds) == "Semi-Finals"
    ensures totalRounds - roundNumber == 2 <==> GetRoundName(roundNumber, totalRounds) == "Quarter-Finals"
    ensures totalRounds - roundNumber > 2 <==>
      GetRoundName(roundNumber, totalRounds) == "Round " + NatToString(roundNumber)
  {
    var name := GetRoundName(roundNumber, totalRounds);
    if totalRounds - roundNumber > 2 {
      assert name[0] == 'R';
    } else {
      assert name[0] != 'R';
    }
  }

  /** No two rounds of a bracket share a name. */
  lemma RoundNamesDistinct(r1: nat, r2: nat, totalRounds: nat)
    requires r1 <= totalRounds && r2 <= totalRounds && r1 != r2
    ensures GetRoundName(r1, totalRounds) != GetRoundName(r2, totalRounds)
  {
    RoundNameCases(r1, totalRounds);
    RoundNameCases(r2, totalRounds);
    if totalRounds - r1 > 2 && totalRounds - r2 > 2 {
      var a, b := NatToString(r1), NatToString(r2);
      if "Round " + a == "Round " + b {
        assert ("Round " + a)[6..] == a && ("Round " + b)[6..] == b;
        NatToStringInjective(r1, r2);
      }
    }
  }

  // ----- skeleton and wiring ----------------------------------------------------------

  /** A match as created: no teams, no winner, pending, not yet wired. */
  function NewMatch(round: nat, number: nat): Match {
    Match(MatchId(round, number), round, number, None, None, None, Pending, None)
  }

  /** Round `round` of `totalRounds` holds `2^(totalRounds - round)` matches,
      numbered from 1. */
  function NewRound(round: nat, totalRounds: nat): Round
    requires round <= totalRounds
  {
    Round(round, GetRoundName(round, totalRounds),
      seq(Pow2(totalRounds - round), i requires 0 <= i => NewMatch(round, i + 1)))
  }

  /** The first loop of the generator: rounds `1 .. totalRounds`. */
  function Skeleton(totalRounds: nat): (r: seq<Round>)
    ensures |r| == totalRounds
  {
    seq(totalRounds, k requires 0 <= k < totalRounds => NewRound(k + 1, totalRounds))
  }

  /** Each match of `current` points at match `floor(i / 2)` of `next`. */
  function WireRound(current: Round, next: Round): Round
    requires |current.matches| <= 2 * |next.matches|
  {
    current.(matches := seq(|current.matches|, i requires 0 <= i < |current.matches| =>
      current.matches[i].(nextMatchId := Some(next.matches[i / 2].id))))
  }

  /** Every round but the last feeds a round with at least half as many
      matches. */
  predicate Halving(rounds: seq<Round>) {
    forall k :: 0 <= k < |rounds| - 1 ==> |rounds[k].matches| <= 2 * |rounds[k + 1].matches|
  }

  /** The second loop of the generator: every round but the last is wired to
      the one after it. Wiring changes no id, so it does not matter that the
      source reads the next round after it may have been wired itself. */
  function Wire(rounds: seq<Round>): (r: seq<Round>)
    requires Halving(rounds)
    ensures |r| == |rounds|
  {
    seq(|rounds|, k requires 0 <= k < |rounds| =>
      if k + 1 < |rounds| then WireRound(rounds[k], rounds[k + 1]) else rounds[k])
  }

  // ----- seeding ----------------------------------------------------------------------

  /** One pass of the seeding loop: fill `team1Id`, then `team2Id`, from the
      next unused team, then complete a match that has only a first team. */
  function SeedOne(m: Match, teams: seq<BracketTeam>, teamIndex: nat): (r: (Match, nat))
    ensures teamIndex <= |teams| ==> r.0 == Seeded(m, teams, teamIndex)
    ensures teamIndex <= |teams| ==> r.1 == if teamIndex + 2 <= |teams| then teamIndex + 2 else |teams|
  {
    var (m1, i1) := if teamIndex < |teams| then (m.(team1Id := Some(teams[teamIndex].id)), teamIndex + 1) else (m, teamIndex);
    var (m2, i2) := if i1 < |teams| then (m1.(team2Id := Some(teams[i1].id)), i1 + 1) else (m1, i1);
    var m3 := if IsSet(m2.team1Id) && !IsSet(m2.team2Id) then m2.(winnerId := m2.team1Id, status := Completed) else m2;
    (m3, i2)
  }

  /** `seedTeamsIntoFirstRound`: the seeding loop over the matches, with the
      running `teamIndex`. */
  function SeedFrom(ms: seq<Match>, teams: seq<BracketTeam>, teamIndex: nat): (r: seq<Match>)
    ensures |r| == |ms|
    ensures teamIndex <= |teams| ==>
      forall i :: 0 <= i < |ms| ==> r[i] == Seeded(ms[i], teams, teamIndex + 2 * i)
    decreases |ms|
  {
    if |ms| == 0 then []
    else
      var (m, next) := SeedOne(ms[0], teams, teamIndex);
      var rest := SeedFrom(ms[1..], teams, next);
      if teamIndex <= |teams| then
        SeedFromTail(ms, teams, teamIndex, next, rest);
        [m] + rest
      else
        [m] + rest
  }

  /** The rest of the pass, started at `next`, seeds match `i` as the whole
      pass started at `teamIndex` would. */
  lemma SeedFromTail(ms: seq<Match>, teams: seq<BracketTeam>, teamIndex: nat, next: nat, rest: seq<Match>)
    requires teamIndex <= |teams| && |ms| > 0 && |rest| == |ms| - 1
    requires next == if teamIndex + 2 <= |teams| then teamIndex + 2 else |teams|
    requires forall i :: 0 <= i < |ms| - 1 ==> rest[i] == Seeded(ms[1..][i], teams, next + 2 * i)
    ensures forall i :: 1 <= i < |ms| ==> rest[i - 1] == Seeded(ms[i], teams, teamIndex + 2 * i)
  {
    forall i | 1 <= i < |ms|
      ensures rest[i - 1] == Seeded(ms[i], teams, teamIndex + 2 * i)
    {
      assert ms[1..][i - 1] == ms[i];
      SeededBeyond(ms[i], teams, next + 2 * (i - 1), teamIndex + 2 * i);
    }
  }

  /** Past the last team, where the pass starts makes no difference. */
  lemma SeededBeyond(m: Match, teams: seq<BracketTeam>, k1: nat, k2: nat)
    requires k1 == k2 || (k1 >= |teams| && k2 >= |teams|)
    ensures Seeded(m, teams, k1) == Seeded(m, teams, k2)
  {
  }

  /** The match the seeding makes out of `m` when its first candidate team is
      number `k`: teams `k` and `k + 1`, where they exist. */
  function Seeded(m: Match, teams: seq<BracketTeam>, k: nat): Match {
    var t1 := if k < |teams| then Some(teams[k].id) else m.team1Id;
    var t2 := if k + 1 < |teams| then Some(teams[k + 1].id) else m.team2Id;
    var seeded := m.(team1Id := t1, team2Id := t2);
    if IsSet(t1) && !IsSet(t2) then seeded.(winnerId := t1, status := Completed) else seeded
  }

  // ----- generation -------------------------------------------------------------------

  /** `generateSingleEliminationBracket(teams)`. */
  function Generate(teams: seq<BracketTeam>): (r: Result<seq<Round>, BracketError>)
    ensures |teams| < 2 <==> r == Failure(NotEnoughTeams)
    ensures r.Success? ==> |r.value| >= 1
  {
    if |teams| < 2 then Failure(NotEnoughTeams)
    else
      Success(SeedFirstRound(Wired(CeilLog2(|teams|)), teams))
  }

  /** The rounds after the first two loops of the generator. */
  function Wired(totalRounds: nat): (r: seq<Round>)
    ensures |r| == totalRounds
  {
    SkeletonHalves(totalRounds);
    Wire(Skeleton(totalRounds))
  }

  /** The seeding step: the first round's matches are replaced by their seeded
      versions; the other rounds are left alone. */
  function SeedFirstRound(rounds: seq<Round>, teams: seq<BracketTeam>): (r: seq<Round>)
    requires |rounds| > 0
    ensures |r| == |rounds|
    ensures forall k :: 0 <= k < |r| ==>
      && r[k].roundNumber == rounds[k].roundNumber
      && r[k].roundName == rounds[k].roundName
      && |r[k].matches| == |rounds[k].matches|
    ensures forall k :: 1 <= k < |r| ==> r[k] == rounds[k]
    ensures r[0].matches == SeedFrom(rounds[0].matches, teams, 0)
  {
    rounds[0 := rounds[0].(matches := SeedFrom(rounds[0].matches, teams, 0))]
  }

  /** Consecutive rounds of the skeleton halve in size. */
  lemma SkeletonHalves(totalRounds: nat)
    ensures Halving(Skeleton(totalRounds))
  {
    var s := Skeleton(totalRounds);
    forall k | 0 <= k < totalRounds - 1
      ensures |s[k].matches| <= 2 * |s[k + 1].matches|
    {
      var e := totalRounds - (k + 2);
      assert |s[k].matches| == Pow2(e + 1);
      assert |s[k + 1].matches| == Pow2(e);
    }
  }

  // ----- the generated bracket -------------------------------------------------------

  /** Match `i` of round `k + 1` (`q` is `Pos(k, i)`) as the first two loops
      leave it: number `i + 1` of its round, pointing at match `floor(i / 2)`
      of the next round unless it is the final. */
  function Unseeded(q: Pos, totalRounds: nat): Match {
    var next := if q.round + 1 < totalRounds then Some(MatchId(q.round + 2, q.index / 2 + 1)) else None;
    NewMatch(q.round + 1, q.index + 1).(nextMatchId := next)
  }

  /** The bracket described match by match: the unseeded match, and in the
      first round with teams `2i` and `2i + 1` seeded into match `i`. */
  function Designed(teams: seq<BracketTeam>, totalRounds: nat, q: Pos): Match {
    var m := Unseeded(q, totalRounds);
    if q.round == 0 then Seeded(m, teams, 2 * q.index) else m
  }

  /** The rounds of the skeleton, each with its number, name and size, and
      every match as created. */
  lemma SkeletonAt(totalRounds: nat, k: nat)
    requires k < totalRounds
    ensures var r := Skeleton(totalRounds)[k];
      && r.roundNumber == k + 1
      && r.roundName == GetRoundName(k + 1, totalRounds)
      && |r.matches| == Pow2(totalRounds - k - 1)
      && forall i :: 0 <= i < |r.matches| ==> r.matches[i] == NewMatch(k + 1, i + 1)
  {
  }

  /** Wiring changes nothing but the next-match ids. */
  lemma WireAt(rounds: seq<Round>, k: nat)
    requires Halving(rounds) && k < |rounds|
    ensures var r := Wire(rounds)[k];
      && r.roundNumber == rounds[k].roundNumber
      && r.roundName == rounds[k].roundName
      && |r.matches| == |rounds[k].matches|
      && (k + 1 < |rounds| ==> forall i :: 0 <= i < |r.matches| ==>
            i / 2 < |rounds[k + 1].matches| &&
            r.matches[i] == rounds[k].matches[i].(nextMatchId := Some(rounds[k + 1].matches[i / 2].id)))
      && (k + 1 == |rounds| ==> r == rounds[k])
  {
  }

  /** The wired rounds carry their number, name and size. */
  lemma WiredShape(totalRounds: nat, k: nat)
    requires k < totalRounds
    ensures var r := Wired(totalRounds)[k];
      && r.roundNumber == k + 1
      && r.roundName == GetRoundName(k + 1, totalRounds)
      && |r.matches| == Pow2(totalRounds - k - 1)
  {
    SkeletonHalves(totalRounds);
    SkeletonAt(totalRounds, k);
    WireAt(Skeleton(totalRounds), k);
  }

  /** The wired matches: created, then pointed at the next round. */
  lemma WiredMatch(totalRounds: nat, q: Pos)
    requires ValidPos(Wired(totalRounds), q)
    ensures At(Wired(totalRounds), q) == Unseeded(q, totalRounds)
  {
    var k, i := q.round, q.index;
    SkeletonHalves(totalRounds);
    var skeleton := Skeleton(totalRounds);
    SkeletonAt(totalRounds, k);
    WireAt(skeleton, k);
    assert i < |skeleton[k].matches|;
    if k + 1 < totalRounds {
      SkeletonAt(totalRounds, k + 1);
      assert Pow2(totalRounds - k - 1) == 2 * Pow2(totalRounds - k - 2);
      assert skeleton[k + 1].matches[i / 2] == NewMatch(k + 2, i / 2 + 1);
      assert Wired(totalRounds)[k].matches[i]
        == NewMatch(k + 1, i + 1).(nextMatchId := Some(MatchId(k + 2, i / 2 + 1)));
    } else {
      assert Wired(totalRounds)[k].matches[i] == NewMatch(k + 1, i + 1);
    }
  }

  /** Round `k + 1` is numbered and named for its place and holds
      `2^(totalRounds - k - 1)` matches. */
  predicate RoundShaped(rounds: seq<Round>, k: nat)
    requires k < |rounds|
  {
    && rounds[k].roundNumber == k + 1
    && rounds[k].roundName == GetRoundName(k + 1, |rounds|)
    && |rounds[k].matches| == Pow2(|rounds| - k - 1)
  }

  ghost predicate AllRoundsShaped(rounds: seq<Round>) {
    forall k :: 0 <= k < |rounds| ==> RoundShaped(rounds, k)
  }

  /** The size of a round of a shaped bracket. */
  lemma ShapedSize(rounds: seq<Round>, k: nat)
    requires AllRoundsShaped(rounds) && k < |rounds|
    ensures |rounds[k].matches| == Pow2(|rounds| - k - 1)
  {
    assert RoundShaped(rounds, k);
  }

  /** The rounds the first two loops leave: shaped, every match created and
      wired. */
  ghost predicate WiredAs(rounds: seq<Round>) {
    && AllRoundsShaped(rounds)
    && forall q :: ValidPos(rounds, q) ==> At(rounds, q) == Unseeded(q, |rounds|)
  }

  /** The bracket a field of `teams` should get: `ceil(log2 n)` rounds, each
      shaped, and every match the designed one. */
  ghost predicate Designs(teams: seq<BracketTeam>, rounds: seq<Round>) {
    && |rounds| >= 1
    && Pow2(|rounds| - 1) < |teams| <= Pow2(|rounds|)
    && AllRoundsShaped(rounds)
    && MatchesDesigned(teams, rounds)
  }

  ghost predicate MatchesDesigned(teams: seq<BracketTeam>, rounds: seq<Round>) {
    forall q :: ValidPos(rounds, q) ==> At(rounds, q) == Designed(teams, |rounds|, q)
  }

  /** The first two loops build the unseeded bracket. */
  lemma WiredIsWiredAs(totalRounds: nat)
    ensures WiredAs(Wired(totalRounds))
  {
    WiredRoundsShaped(totalRounds);
    WiredMatchesUnseeded(totalRounds);
  }

  lemma WiredRoundsShaped(totalRounds: nat)
    ensures AllRoundsShaped(Wired(totalRounds))
  {
    forall k | 0 <= k < totalRounds
      ensures RoundShaped(Wired(totalRounds), k)
    {
      WiredShape(totalRounds, k);
    }
  }

  lemma WiredMatchesUnseeded(totalRounds: nat)
    ensures forall q :: ValidPos(Wired(totalRounds), q) ==> At(Wired(totalRounds), q) == Unseeded(q, totalRounds)
  {
    forall q | ValidPos(Wired(totalRounds), q)
      ensures At(Wired(totalRounds), q) == Unseeded(q, totalRounds)
    {
      WiredMatch(totalRounds, q);
    }
  }

  /** Seeding keeps every round's number, name and size. */
  lemma SeedKeepsShape(w: seq<Round>, teams: seq<BracketTeam>)
    requires |w| > 0 && AllRoundsShaped(w)
    ensures AllRoundsShaped(SeedFirstRound(w, teams))
  {
    var r := SeedFirstRound(w, teams);
    forall k | 0 <= k < |r|
      ensures RoundShaped(r, k)
    {
      assert RoundShaped(w, k);
    }
  }

  /** Seeding the unseeded bracket gives the designed matches. */
  lemma SeedDesigns(w: seq<Round>, teams: seq<BracketTeam>)
    requires |w| > 0 && WiredAs(w)
    ensures MatchesDesigned(teams, SeedFirstRound(w, teams))
  {
    var r := SeedFirstRound(w, teams);
    forall q | ValidPos(r, q)
      ensures At(r, q) == Designed(teams, |r|, q)
    {
      assert ValidPos(w, q) && At(w, q) == Unseeded(q, |w|);
      if q.round == 0 {
        assert At(r, q) == Seeded(At(w, q), teams, 2 * q.index);
      } else {
        assert At(r, q) == At(w, q);
      }
    }
  }

  /** The generator builds the designed bracket, with `ceil(log2 n)`
      rounds. */
  lemma GenerateDesigns(teams: seq<BracketTeam>)
    requires |teams| >= 2
    ensures Generate(teams).Success?
    ensures |Generate(teams).value| == CeilLog2(|teams|)
    ensures Designs(teams, Generate(teams).value)
  {
    var e := CeilLog2(|teams|);
    assert e >= 1 && Pow2(e - 1) < |teams| <= Pow2(e);
    var w := Wired(e);
    assert |w| == e;
    WiredIsWiredAs(e);
    assert Generate(teams) == Success(SeedFirstRound(w, teams));
    SeedingDesigns(teams, w);
  }

  /** Seeding an unseeded bracket of the right depth gives the designed
      bracket. */
  lemma SeedingDesigns(teams: seq<BracketTeam>, w: seq<Round>)
    requires |w| >= 1 && Pow2(|w| - 1) < |teams| <= Pow2(|w|)
    requires WiredAs(w)
    ensures Designs(teams, SeedFirstRound(w, teams))
  {
    SeedKeepsShape(w, teams);
    SeedDesigns(w, teams);
  }

  /** Seeding fills the team slots and possibly the winner and status; the
      id, numbers and next-match id stay. */
  lemma SeededKeepsFields(m: Match, teams: seq<BracketTeam>, k: nat)
    ensures var s := Seeded(m, teams, k);
      s.id == m.id && s.roundNumber == m.roundNumber && s.matchNumber == m.matchNumber && s.nextMatchId == m.nextMatchId
  {
  }

  /** The designed match's id, numbers and next-match id. */
  lemma DesignedMatchFields(teams: seq<BracketTeam>, totalRounds: nat, q: Pos)
    ensures var m := Designed(teams, totalRounds, q);
      && m.id == MatchId(q.round + 1, q.index + 1)
      && m.roundNumber == q.round + 1
      && m.matchNumber == q.index + 1
      && m.nextMatchId == if q.round + 1 < totalRounds then Some(MatchId(q.round + 2, q.index / 2 + 1)) else None
  {
    var u := Unseeded(q, totalRounds);
    SeededKeepsFields(u, teams, 2 * q.index);
  }

  /** The fields seeding leaves alone: id, numbers and next-match id. */
  lemma DesignedFields(teams: seq<BracketTeam>, rounds: seq<Round>, q: Pos)
    requires Designs(teams, rounds) && ValidPos(rounds, q)
    ensures var m := At(rounds, q);
      && m.id == MatchId(q.round + 1, q.index + 1)
      && m.roundNumber == q.round + 1
      && m.matchNumber == q.index + 1
      && m.nextMatchId == if q.round + 1 < |rounds| then Some(MatchId(q.round + 2, q.index / 2 + 1)) else None
  {
    DesignedMatchFields(teams, |rounds|, q);
  }

  lemma Pow2Double(e: nat)
    ensures Pow2(e + 1) == 2 * Pow2(e)
  {
  }

  /** Halving an index below `2n` gives an index below `n`. */
  lemma HalfBelow(i: nat, n: nat)
    requires i < 2 * n
    ensures i / 2 < n
  {
  }

  /** Match `i` of a round that is not the last has match `floor(i / 2)` in
      the next round. */
  lemma NextRoundHalf(teams: seq<BracketTeam>, rounds: seq<Round>, k: nat, i: nat)
    requires Designs(teams, rounds) && ValidPos(rounds, Pos(k, i)) && k + 1 < |rounds|
    ensures i / 2 < |rounds[k + 1].matches|
  {
    var d: nat := |rounds| - k - 2;
    Pow2Double(d);
    ShapedSize(rounds, k);
    ShapedSize(rounds, k + 1);
    HalfBelow(i, |rounds[k + 1].matches|);
  }

  /** Every match but a final points at match `floor(i / 2)` of the next round;
      the final points nowhere. */
  lemma DesignWiring(teams: seq<BracketTeam>, rounds: seq<Round>, k: nat, i: nat)
    requires Designs(teams, rounds) && ValidPos(rounds, Pos(k, i))
    ensures k + 1 < |rounds| ==>
      i / 2 < |rounds[k + 1].matches| && rounds[k].matches[i].nextMatchId == Some(rounds[k + 1].matches[i / 2].id)
    ensures k + 1 == |rounds| ==> rounds[k].matches[i].nextMatchId.None?
  {
    DesignedFields(teams, rounds, Pos(k, i));
    if k + 1 < |rounds| {
      NextRoundHalf(teams, rounds, k, i);
      var np := Pos(k + 1, i / 2);
      DesignedFields(teams, rounds, np);
      PointsAt(rounds, Pos(k, i), np);
    } else {
      assert At(rounds, Pos(k, i)).nextMatchId.None?;
    }
  }

  /** A match whose next-match id is the id of the match at `np` points
      there. */
  lemma PointsAt(rounds: seq<Round>, p: Pos, np: Pos)
    requires ValidPos(rounds, p) && ValidPos(rounds, np)
    requires At(rounds, p).nextMatchId == Some(MatchId(np.round + 1, np.index + 1))
    requires At(rounds, np).id == MatchId(np.round + 1, np.index + 1)
    ensures rounds[p.round].matches[p.index].nextMatchId == Some(rounds[np.round].matches[np.index].id)
  {
  }

  /** First-round match `i` holds teams `2i` and `2i + 1` where they exist and
      nothing where they do not; it is completed, with its first team as the
      winner, exactly when it has a first team and no second one, and is
      otherwise pending without a winner. */
  lemma DesignSeeding(teams: seq<BracketTeam>, rounds: seq<Round>, i: nat)
    requires Designs(teams, rounds) && ValidPos(rounds, Pos(0, i))
    ensures var m := rounds[0].matches[i];
      && m.team1Id == (if 2 * i < |teams| then Some(teams[2 * i].id) else None)
      && m.team2Id == (if 2 * i + 1 < |teams| then Some(teams[2 * i + 1].id) else None)
      && (IsSet(m.team1Id) && !IsSet(m.team2Id) ==> m.winnerId == m.team1Id && m.status == Completed)
      && (!(IsSet(m.team1Id) && !IsSet(m.team2Id)) ==> m.winnerId.None? && m.status == Pending)
  {
    assert At(rounds, Pos(0, i)) == Designed(teams, |rounds|, Pos(0, i));
  }

  /** Team `k` lands in first-round match `floor(k / 2)`, as the first team
      when `k` is even and the second when it is odd. */
  lemma TeamSeedPlacement(teams: seq<BracketTeam>, rounds: seq<Round>, k: nat)
    requires Designs(teams, rounds) && k < |teams|
    ensures k / 2 < |rounds[0].matches|
    ensures k % 2 == 0 ==> rounds[0].matches[k / 2].team1Id == Some(teams[k].id)
    ensures k % 2 == 1 ==> rounds[0].matches[k / 2].team2Id == Some(teams[k].id)
  {
    var d: nat := |rounds| - 1;
    Pow2Double(d);
    ShapedSize(rounds, 0);
    HalfBelow(k, |rounds[0].matches|);
    DesignSeeding(teams, rounds, k / 2);
  }

  /** With non-empty team ids, only the match holding the last team of an odd
      field is a bye: sequential seeding fills every other match with two
      teams or none. */
  lemma ByeOnlyForOddLastTeam(teams: seq<BracketTeam>, rounds: seq<Round>, i: nat)
    requires Designs(teams, rounds) && ValidPos(rounds, Pos(0, i))
    requires forall k :: 0 <= k < |teams| ==> teams[k].id != ""
    ensures rounds[0].matches[i].status == Completed <==> 2 * i + 1 == |teams|
  {
    DesignSeeding(teams, rounds, i);
  }

  /** Matches after the first round start empty, without a winner and
      pending. */
  lemma LaterRoundsStartEmpty(teams: seq<BracketTeam>, rounds: seq<Round>, q: Pos)
    requires Designs(teams, rounds) && ValidPos(rounds, q) && q.round > 0
    ensures var m := At(rounds, q);
      m.team1Id.None? && m.team2Id.None? && m.winnerId.None? && m.status == Pending
  {
    assert At(rounds, q) == Designed(teams, |rounds|, q);
  }

  /** No two matches of a designed bracket share an id, so the lookup by id
      finds each match at its own place. */
  lemma DesignIdsDistinct(teams: seq<BracketTeam>, rounds: seq<Round>, p: Pos, q: Pos)
    requires Designs(teams, rounds) && ValidPos(rounds, p) && ValidPos(rounds, q) && p != q
    ensures At(rounds, p).id != At(rounds, q).id
  {
    DesignedFields(teams, rounds, p);
    DesignedFields(teams, rounds, q);
    PlacesHaveDistinctIds(p, q);
  }

  /** Two places of a bracket have different `r{round}m{match}` ids. */
  lemma PlacesHaveDistinctIds(p: Pos, q: Pos)
    requires p != q
    ensures MatchId(p.round + 1, p.index + 1) != MatchId(q.round + 1, q.index + 1)
  {
    if MatchId(p.round + 1, p.index + 1) == MatchId(q.round + 1, q.index + 1) {
      MatchIdInjective(p.round + 1, p.index + 1, q.round + 1, q.index + 1);
    }
  }

  /** Looking up a designed match's id finds that match. */
  lemma DesignFinds(teams: seq<BracketTeam>, rounds: seq<Round>, p: Pos)
    requires Designs(teams, rounds) && ValidPos(rounds, p)
    ensures FindMatch(rounds, At(rounds, p).id) == Some(p)
  {
    forall q | ValidPos(rounds, q) && q != p
      ensures At(rounds, q).id != At(rounds, p).id
    {
      DesignIdsDistinct(teams, rounds, q, p);
    }
    FindMatchUnique(rounds, p);
  }

  /** With non-empty team ids a new bracket is never complete: its final is
      either a later-round match, which starts pending, or the two-team first
      match, which is no bye. */
  lemma FreshBracketNotComplete(teams: seq<BracketTeam>, rounds: seq<Round>)
    requires Designs(teams, rounds)
    requires forall k :: 0 <= k < |teams| ==> teams[k].id != ""
    ensures HasFinalsMatch(rounds) && !IsBracketComplete(rounds)
  {
    var last := |rounds| - 1;
    ShapedSize(rounds, last);
    if last == 0 {
      ByeOnlyForOddLastTeam(teams, rounds, 0);
    } else {
      LaterRoundsStartEmpty(teams, rounds, Pos(last, 0));
    }
  }
}
