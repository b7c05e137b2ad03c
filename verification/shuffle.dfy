/** The team shuffler (lib/shuffle.ts, `shuffleArray`, `shuffleTeams`,
    `getReservePlayers` and `performShuffle`). `Math.random` is replaced by
    caller-supplied draws: one sequence of draws per search iteration, one draw
    per Fisher-Yates step. With the draws fixed, the search is deterministic. */
module Shuffle {
  import opened Wrappers
  import opened Players
  import opened Roles
  import opened Balance

  datatype ShuffleConfig = ShuffleConfig(teamSize: nat, iterations: nat, minPlayersForShuffle: nat)

  /** `DEFAULT_CONFIG`: teams of 5, 1000 iterations, at least 10 present players. */
  const DefaultConfig := ShuffleConfig(5, 1000, 10)

  /** The two errors `shuffleTeams` throws. */
  datatype ShuffleError =
    | NotEnoughPlayers(required: nat, got: nat)
    | NotEnoughTeams

  datatype ShuffleResult = ShuffleResult(teams: seq<Team>, reservePlayers: seq<Player>, balance: BalanceStats)

  // ----- shuffleArray ---------------------------------------------------------

  /** `[shuffled[i], shuffled[j]] = [shuffled[j], shuffled[i]]`. */
  function Swap(a: seq<Player>, i: nat, j: nat): (r: seq<Player>)
    requires i < |a| && j < |a|
    ensures |r| == |a| && r[i] == a[j] && r[j] == a[i]
  {
    a[i := a[j]][j := a[i]]
  }

  /** A swap only exchanges two players. */
  lemma SwapPermutes(a: seq<Player>, i: nat, j: nat)
    requires i < |a| && j < |a|
    ensures multiset(Swap(a, i, j)) == multiset(a)
  {
  }

  /** `Math.floor(Math.random() * (i + 1))`, with the random number replaced
      by the draw `d`: an index in `0 .. i`. */
  function Pick(d: nat, i: nat): (j: nat)
    ensures j <= i
  {
    d % (i + 1)
  }

  /** The Fisher-Yates steps `n - 1, n - 2, ..., 1`. Step `i` swaps position
      `i` with position `j`, where `j = Math.floor(Math.random() * (i + 1))`
      is modelled as the draw `draws[|a| - 1 - i]` taken modulo `i + 1`. */
  function FisherYates(a: seq<Player>, draws: seq<nat>, n: nat): (r: seq<Player>)
    requires n <= |a| && |draws| + 1 >= |a|
    ensures multiset(r) == multiset(a)
    ensures |r| == |a| && forall k :: n <= k < |a| ==> r[k] == a[k]
    decreases n
  {
    if n <= 1 then a
    else
      var i := n - 1;
      SwapPermutes(a, i, Pick(draws[|a| - 1 - i], i));
      FisherYates(Swap(a, i, Pick(draws[|a| - 1 - i], i)), draws, i)
  }

  /** `shuffleArray(array)`: a copy of `array` in shuffled order, holding
      exactly the input's players, as often as they occur. */
  function ShuffleArray(a: seq<Player>, draws: seq<nat>): (r: seq<Player>)
    requires |draws| + 1 >= |a|
    ensures |r| == |a| && multiset(r) == multiset(a)
  {
    FisherYates(a, draws, |a|)
  }

  // ----- round-robin deal -----------------------------------------------------

  lemma DivUnique(a: int, k: int, q: int, s: int)
    requires k > 0 && 0 <= s < k && a == q * k + s
    ensures a / k == q && a % k == s
  {
    var q', s' := a / k, a % k;
    if q' < q {
      MulMono(q' + 1, q, k);
    } else if q < q' {
      MulMono(q + 1, q', k);
    }
  }

  lemma MulMono(a: int, b: int, k: int)
    requires a <= b && k > 0
    ensures a * k <= b * k
  {
  }

  /** Appending player `n` of the deal to team `n % k` grows that team by one
      and no other. */
  lemma DealLengthStep(n: nat, k: nat, t: nat)
    requires k > 0 && t < k
    ensures (n + k - t) / k == (n + k - 1 - t) / k + (if t == n % k then 1 else 0)
  {
    var q, r := n / k, n % k;
    assert n == q * k + r;
    if t == r {
      DivUnique(n + k - 1 - t, k, q, k - 1);
      DivUnique(n + k - t, k, q + 1, 0);
    } else if t < r {
      DivUnique(n + k - 1 - t, k, q + 1, r - t - 1);
      DivUnique(n + k - t, k, q + 1, r - t);
    } else {
      DivUnique(n + k - 1 - t, k, q, k - 1 - (t - r));
      DivUnique(n + k - t, k, q, k - (t - r));
    }
  }

  lemma {:induction false} MembersPush(teams: seq<seq<Player>>, t: nat, x: Player)
    requires t < |teams|
    ensures multiset(Members(teams[t := teams[t] + [x]])) == multiset(Members(teams)) + multiset{x}
    decreases |teams|
  {
    var teams' := teams[t := teams[t] + [x]];
    if t == 0 {
      assert teams'[1..] == teams[1..];
    } else {
      assert teams'[1..] == teams[1..][t - 1 := teams[1..][t - 1] + [x]];
      MembersPush(teams[1..], t - 1, x);
    }
  }

  lemma MultisetSnoc<T>(xs: seq<T>)
    requires |xs| > 0
    ensures multiset(xs) == multiset(xs[..|xs| - 1]) + multiset{xs[|xs| - 1]}
  {
    assert xs == xs[..|xs| - 1] + [xs[|xs| - 1]];
  }

  /** `Array.from({ length: k }, () => [])`. */
  function EmptyTeams(k: nat): (r: seq<seq<Player>>)
    ensures |r| == k && forall t :: 0 <= t < k ==> r[t] == []
  {
    seq(k, _ => [])
  }

  lemma {:induction false} MembersOfEmptyTeams(k: nat)
    ensures Members(EmptyTeams(k)) == []
    decreases k
  {
    if k > 0 {
      assert EmptyTeams(k)[1..] == EmptyTeams(k - 1);
      MembersOfEmptyTeams(k - 1);
    }
  }

  /** The round-robin loop of `shuffleTeams`: player `i` is pushed onto team
      `i % numTeams`. */
  function Deal(xs: seq<Player>, numTeams: nat): (teams: seq<seq<Player>>)
    requires numTeams > 0
    ensures |teams| == numTeams
    decreases |xs|
  {
    if |xs| == 0 then
      EmptyTeams(numTeams)
    else
      var n := |xs| - 1;
      var prev := Deal(xs[..n], numTeams);
      var t := n % numTeams;
      prev[t := prev[t] + [xs[n]]]
  }

  /** The deal loses no player and adds none. */
  lemma {:induction false} DealKeepsPlayers(xs: seq<Player>, numTeams: nat)
    requires numTeams > 0
    ensures multiset(Members(Deal(xs, numTeams))) == multiset(xs)
    decreases |xs|
  {
    if |xs| == 0 {
      MembersOfEmptyTeams(numTeams);
    } else {
      var n := |xs| - 1;
      var prev := Deal(xs[..n], numTeams);
      assert Deal(xs, numTeams) == prev[n % numTeams := prev[n % numTeams] + [xs[n]]];
      DealKeepsPlayers(xs[..n], numTeams);
      MembersPush(prev, n % numTeams, xs[n]);
      MultisetSnoc(xs);
    }
  }

  /** How many of the positions `0 .. n - 1` are congruent to `t` modulo `k`. */
  function DealtCount(n: nat, k: nat, t: nat): nat
    requires k > 0 && t < k
  {
    (n + k - 1 - t) / k
  }

  /** Team `t` of the deal holds one player per position congruent to `t`. */
  lemma {:induction false} DealLength(xs: seq<Player>, numTeams: nat, t: nat)
    requires numTeams > 0 && t < numTeams
    ensures |Deal(xs, numTeams)[t]| == DealtCount(|xs|, numTeams, t)
    decreases |xs|
  {
    if |xs| == 0 {
      DivUnique(numTeams - 1 - t, numTeams, 0, numTeams - 1 - t);
    } else {
      var n := |xs| - 1;
      var prev := Deal(xs[..n], numTeams);
      assert Deal(xs, numTeams) == prev[n % numTeams := prev[n % numTeams] + [xs[n]]];
      DealLength(xs[..n], numTeams, t);
      DealLengthStep(n, numTeams, t);
    }
  }

  /** Player `j * numTeams + u` of the deal sits in team `u` at index `j`. */
  lemma {:induction false} DealPosition(xs: seq<Player>, numTeams: nat, j: nat, u: nat)
    requires u < numTeams && j * numTeams + u < |xs|
    ensures j < |Deal(xs, numTeams)[u]|
    ensures Deal(xs, numTeams)[u][j] == xs[j * numTeams + u]
    decreases |xs|
  {
    var n := |xs| - 1;
    var prev := Deal(xs[..n], numTeams);
    var t := n % numTeams;
    assert Deal(xs, numTeams) == prev[t := prev[t] + [xs[n]]];
    if j * numTeams + u == n {
      LastDealtSlot(n, numTeams, j, u);
      DealLength(xs[..n], numTeams, u);
    } else {
      DealPosition(xs[..n], numTeams, j, u);
    }
  }

  /** Position `j * k + u` goes to team `u`, which then holds `j` players. */
  lemma LastDealtSlot(n: nat, k: nat, j: nat, u: nat)
    requires u < k && j * k + u == n
    ensures n % k == u && DealtCount(n, k, u) == j
  {
    DivUnique(n, k, j, u);
    DivUnique(n + k - 1 - u, k, j, k - 1);
  }

  // ----- one search iteration --------------------------------------------------

  /** The teams one iteration proposes: shuffle the present players, keep the
      first `numTeams * teamSize`, deal them round-robin. There are exactly
      `numTeams` teams of exactly `teamSize` players, all of them present
      players and none used twice. */
  function Candidate(present: seq<Player>, numTeams: nat, teamSize: nat, draws: seq<nat>): (c: seq<seq<Player>>)
    requires numTeams > 0 && numTeams * teamSize <= |present| && |draws| + 1 >= |present|
    ensures |c| == numTeams && forall t :: 0 <= t < numTeams ==> |c[t]| == teamSize
  {
    var taken := ShuffleArray(present, draws)[..numTeams * teamSize];
    DealSizes(taken, numTeams, teamSize);
    Deal(taken, numTeams)
  }

  /** A candidate's players are present players, none used twice. */
  lemma CandidatePlayers(present: seq<Player>, numTeams: nat, teamSize: nat, draws: seq<nat>)
    requires numTeams > 0 && numTeams * teamSize <= |present| && |draws| + 1 >= |present|
    ensures multiset(Members(Candidate(present, numTeams, teamSize, draws))) <= multiset(present)
  {
    var shuffled := ShuffleArray(present, draws);
    DealKeepsPlayers(shuffled[..numTeams * teamSize], numTeams);
    PrefixSubMultiset(shuffled, numTeams * teamSize);
  }

  lemma PrefixSubMultiset(s: seq<Player>, n: nat)
    requires n <= |s|
    ensures multiset(s[..n]) <= multiset(s)
  {
    assert s == s[..n] + s[n..];
  }

  /** `roleScore * 100 + variance`: role balance outweighs rating balance.
      A candidate scores 0 exactly when every team is ideal and all teams
      have the same average rating. */
  function CombinedScore(teams: seq<seq<Player>>): (r: real)
    ensures r >= RoleScore(teams) as real * 100.0
    ensures r == 0.0 <==> RoleScore(teams) == 0 && AllEqualAverages(TeamStats(teams))
  {
    VarianceZeroIffEqualAverages(TeamStats(teams));
    RoleScore(teams) as real * 100.0 + Variance(TeamStats(teams))
  }

  /** Dealing `numTeams * teamSize` players gives every team `teamSize`. */
  lemma DealSizes(taken: seq<Player>, numTeams: nat, teamSize: nat)
    requires numTeams > 0 && |taken| == numTeams * teamSize
    ensures forall t :: 0 <= t < numTeams ==> |Deal(taken, numTeams)[t]| == teamSize
  {
    forall t | 0 <= t < numTeams
      ensures |Deal(taken, numTeams)[t]| == teamSize
    {
      DealLength(taken, numTeams, t);
      DealtCountFull(numTeams, teamSize, t);
    }
  }

  /** Dealing `numTeams * teamSize` players gives every team `teamSize`. */
  lemma DealtCountFull(numTeams: nat, teamSize: nat, t: nat)
    requires t < numTeams
    ensures DealtCount(numTeams * teamSize, numTeams, t) == teamSize
  {
    DivUnique(numTeams * teamSize + numTeams - 1 - t, numTeams, teamSize, numTeams - 1 - t);
  }

  /** Player `j * numTeams + u` of the shuffled order is member `j` of team
      `u`. */
  lemma CandidatePositions(present: seq<Player>, numTeams: nat, teamSize: nat, draws: seq<nat>, u: nat, j: nat)
    requires numTeams > 0 && numTeams * teamSize <= |present| && |draws| + 1 >= |present|
    requires u < numTeams && j < teamSize
    ensures j * numTeams + u < |present|
    ensures var c := Candidate(present, numTeams, teamSize, draws);
      j < |c[u]| && c[u][j] == ShuffleArray(present, draws)[j * numTeams + u]
  {
    SlotBelow(j, u, numTeams, teamSize);
    var shuffled := ShuffleArray(present, draws);
    PrefixAt(shuffled, numTeams * teamSize, j * numTeams + u);
    DealPosition(shuffled[..numTeams * teamSize], numTeams, j, u);
  }

  lemma PrefixAt(s: seq<Player>, n: nat, k: nat)
    requires k < n <= |s|
    ensures s[..n][k] == s[k]
  {
  }

  /** Position `j * k + u` lies within the first `k * size` players. */
  lemma SlotBelow(j: nat, u: nat, k: nat, size: nat)
    requires u < k && j < size
    ensures j * k + u < k * size
  {
    MulMono(j + 1, size, k);
    assert (j + 1) * k == j * k + k;
    assert size * k == k * size;
  }

  // ----- shuffleTeams -----------------------------------------------------------

  /** The draws give every iteration one draw per Fisher-Yates step. */
  predicate DrawsSuffice(players: seq<Player>, draws: seq<seq<nat>>) {
    forall t :: 0 <= t < |draws| ==> |draws[t]| + 1 >= |Present(players)|
  }

  /** The combined score of every iteration's candidate, in iteration order. */
  function Scores(present: seq<Player>, numTeams: nat, teamSize: nat, draws: seq<seq<nat>>): (s: seq<real>)
    requires numTeams > 0 && numTeams * teamSize <= |present|
    requires forall t :: 0 <= t < |draws| ==> |draws[t]| + 1 >= |present|
    ensures |s| == |draws|
  {
    seq(|draws|, t requires 0 <= t < |draws| => CombinedScore(Candidate(present, numTeams, teamSize, draws[t])))
  }

  /** Among the first `n` scores, `c` is where the first least one sits: none
      of them is below it and every earlier one is above it. Keeping a
      candidate only when it is strictly better than the best so far selects
      exactly this position. */
  predicate FirstMinimumOf(s: seq<real>, n: nat, c: nat) {
    && c < n <= |s|
    && (forall t :: 0 <= t < n ==> s[c] <= s[t])
    && (forall t :: 0 <= t < c ==> s[t] > s[c])
  }

  predicate FirstMinimum(s: seq<real>, c: nat) {
    FirstMinimumOf(s, |s|, c)
  }

  /** At most one position is the first minimum, so the search's choice is
      determined by the scores. */
  lemma FirstMinimumUnique(s: seq<real>, c: nat, d: nat)
    requires FirstMinimum(s, c) && FirstMinimum(s, d)
    ensures c == d
  {
    assert s[c] <= s[d] && s[d] <= s[c];
  }

  /** A non-empty score list has a first minimum. */
  lemma {:induction false} FirstMinimumExists(s: seq<real>, n: nat) returns (c: nat)
    requires 0 < n <= |s|
    ensures FirstMinimumOf(s, n, c)
    decreases n
  {
    if n == 1 {
      c := 0;
    } else {
      var d := FirstMinimumExists(s, n - 1);
      if s[n - 1] < s[d] {
        c := n - 1;
      } else {
        c := d;
      }
    }
  }

  /** One more iteration of the search: the newcomer takes over exactly when it
      is strictly better than the best so far. */
  lemma FirstMinimumExtend(s: seq<real>, i: nat, c: nat)
    requires i < |s| && (i > 0 ==> FirstMinimumOf(s, i, c))
    ensures i == 0 ==> FirstMinimumOf(s, 1, 0)
    ensures i > 0 && s[i] < s[c] ==> FirstMinimumOf(s, i + 1, i)
    ensures i > 0 && s[i] >= s[c] ==> FirstMinimumOf(s, i + 1, c)
  {
  }

  lemma NumTeamsFit(n: nat, size: nat)
    requires size > 0
    ensures n / size * size <= n
    ensures n - n / size * size == n % size
  {
  }

  /** `shuffleTeams(players, config)`. Fails when fewer than
      `minPlayersForShuffle` players are present, or when they fill fewer than 2
      teams. Otherwise it runs one iteration per entry of `draws` and returns the
      candidate of iteration `chosen`, the first iteration whose combined score
      is the least of all. With no iterations it returns no teams. */
  method ShuffleTeams(players: seq<Player>, config: ShuffleConfig, draws: seq<seq<nat>>)
    returns (r: Result<seq<Team>, ShuffleError>, chosen: nat)
    requires config.teamSize > 0
    requires |draws| == config.iterations
    requires DrawsSuffice(players, draws)
    ensures var present := Present(players);
      |present| < config.minPlayersForShuffle ==>
        r == Failure(NotEnoughPlayers(config.minPlayersForShuffle, |present|))
    ensures var present := Present(players);
      |present| >= config.minPlayersForShuffle && |present| / config.teamSize < 2 ==>
        r == Failure(NotEnoughTeams)
    ensures var present := Present(players);
      |present| >= config.minPlayersForShuffle && |present| / config.teamSize >= 2 ==> r.Success?
    ensures r.Success? && |draws| == 0 ==> r.value == []
    ensures r.Success? && |draws| > 0 ==>
      var present := Present(players);
      var numTeams := |present| / config.teamSize;
      && numTeams * config.teamSize <= |present|
      && FirstMinimum(Scores(present, numTeams, config.teamSize, draws), chosen)
      && r.value == TeamStats(Candidate(present, numTeams, config.teamSize, draws[chosen]))
    ensures r.Success? && |draws| > 0 ==>
      && |r.value| == |Present(players)| / config.teamSize
      && (forall k :: 0 <= k < |r.value| ==>
            r.value[k].teamNumber == k + 1 && |r.value[k].players| == config.teamSize)
      && multiset(Members(TeamPlayers(r.value))) <= multiset(Present(players))
  {
    chosen := 0;
    var present := Present(players);
    if |present| < config.minPlayersForShuffle {
      return Failure(NotEnoughPlayers(config.minPlayersForShuffle, |present|)), chosen;
    }
    var teamSize := config.teamSize;
    var numTeams := |present| / teamSize;
    if numTeams < 2 {
      return Failure(NotEnoughTeams), chosen;
    }
    NumTeamsFit(|present|, teamSize);
    var bestTeams;
    bestTeams, chosen := Search(present, numTeams, teamSize, draws);
    if |draws| > 0 {
      CandidatePlayers(present, numTeams, teamSize, draws[chosen]);
      assert TeamPlayers(TeamStats(bestTeams)) == bestTeams;
    }
    return Success(TeamStats(bestTeams)), chosen;
  }

  /** The iteration loop of `shuffleTeams`: iteration `iter` scores its own
      candidate and keeps it when it beats the best so far strictly. The
      result is the candidate of the first iteration with the least score, or
      no teams when there are no iterations. */
  method Search(present: seq<Player>, numTeams: nat, teamSize: nat, draws: seq<seq<nat>>)
    returns (bestTeams: seq<seq<Player>>, chosen: nat)
    requires numTeams > 0 && numTeams * teamSize <= |present|
    requires forall t :: 0 <= t < |draws| ==> |draws[t]| + 1 >= |present|
    ensures |draws| == 0 ==> bestTeams == []
    ensures |draws| > 0 ==>
      && FirstMinimum(Scores(present, numTeams, teamSize, draws), chosen)
      && bestTeams == Candidate(present, numTeams, teamSize, draws[chosen])
  {
    ghost var scores := Scores(present, numTeams, teamSize, draws);
    chosen := 0;
    // `bestRoleScore` and `bestVariance` start at Infinity; `found` is false
    // while they do.
    var found := false;
    bestTeams := [];
    var bestRoleScore: nat := 0;
    var bestVariance: real := 0.0;
    var iter := 0;
    while iter < |draws|
      invariant 0 <= iter <= |draws|
      invariant found <==> iter > 0
      invariant !found ==> bestTeams == []
      invariant found ==>
        && FirstMinimumOf(scores, iter, chosen)
        && bestTeams == Candidate(present, numTeams, teamSize, draws[chosen])
        && bestRoleScore as real * 100.0 + bestVariance == scores[chosen]
    {
      var teams := Candidate(present, numTeams, teamSize, draws[iter]);
      var variance := Variance(TeamStats(teams));
      var roleScore := RoleScore(teams);
      var combinedScore := roleScore as real * 100.0 + variance;
      assert combinedScore == scores[iter];
      FirstMinimumExtend(scores, iter, chosen);
      if !found || combinedScore < bestRoleScore as real * 100.0 + bestVariance {
        bestVariance := variance;
        bestRoleScore := roleScore;
        bestTeams := teams;
        chosen := iter;
        found := true;
      }
      iter := iter + 1;
    }
  }

  // ----- reserves and the full operation --------------------------------------------

  /** The member lists of `teams`. */
  function TeamPlayers(teams: seq<Team>): (r: seq<seq<Player>>)
    ensures |r| == |teams| && forall k :: 0 <= k < |r| ==> r[k] == teams[k].players
  {
    seq(|teams|, k requires 0 <= k < |teams| => teams[k].players)
  }

  /** Ids of every player on some team (`playersInTeams`). */
  function PlacedIds(teams: seq<Team>): set<string> {
    Ids(Members(TeamPlayers(teams)))
  }

  /** `ps` without the players whose id is in `ids`, keeping order. */
  function Unplaced(ps: seq<Player>, ids: set<string>): (r: seq<Player>)
    ensures forall p :: p in r <==> p in ps && p.id !in ids
    ensures IsSubsequence(r, ps)
  {
    if |ps| == 0 then []
    else
      var rest := Unplaced(ps[1..], ids);
      assert ps == [ps[0]] + ps[1..];
      if ps[0].id in ids then rest else [ps[0]] + rest
  }

  /** `ps` restricted to the players whose id is in `ids`, keeping order. */
  function Placed(ps: seq<Player>, ids: set<string>): (r: seq<Player>)
    ensures forall p :: p in r <==> p in ps && p.id in ids
  {
    if |ps| == 0 then []
    else
      var rest := Placed(ps[1..], ids);
      assert ps == [ps[0]] + ps[1..];
      if ps[0].id in ids then [ps[0]] + rest else rest
  }

  /** `r` is `s` with some elements left out, the rest in their original order. */
  predicate IsSubsequence(r: seq<Player>, s: seq<Player>)
    decreases |s|
  {
    if |r| == 0 then true
    else if |s| == 0 then false
    else (r[0] == s[0] && IsSubsequence(r[1..], s[1..])) || IsSubsequence(r, s[1..])
  }

  /** `getReservePlayers(players, teams)`: the present players, in roster order,
      whose id appears on no team. */
  function GetReservePlayers(players: seq<Player>, teams: seq<Team>): (r: seq<Player>)
    ensures forall p :: p in r <==> p in players && IsPresent(p) && p.id !in PlacedIds(teams)
    ensures IsSubsequence(r, Present(players))
  {
    Unplaced(Present(players), PlacedIds(teams))
  }

  lemma {:induction false} SplitByIds(ps: seq<Player>, ids: set<string>)
    ensures multiset(Unplaced(ps, ids)) + multiset(Placed(ps, ids)) == multiset(ps)
    decreases |ps|
  {
    if |ps| > 0 {
      SplitByIds(ps[1..], ids);
      assert ps == [ps[0]] + ps[1..];
      assert multiset(ps) == multiset([ps[0]]) + multiset(ps[1..]);
      if ps[0].id in ids {
        assert Placed(ps, ids) == [ps[0]] + Placed(ps[1..], ids);
        assert Unplaced(ps, ids) == Unplaced(ps[1..], ids);
      } else {
        assert Placed(ps, ids) == Placed(ps[1..], ids);
        assert Unplaced(ps, ids) == [ps[0]] + Unplaced(ps[1..], ids);
      }
    }
  }

  lemma {:induction false} DistinctIdsOccurOnce(ps: seq<Player>, x: Player)
    requires DistinctIds(ps)
    ensures multiset(ps)[x] <= 1
    decreases |ps|
  {
    if |ps| > 0 {
      assert ps == [ps[0]] + ps[1..];
      assert DistinctIds(ps[1..]) by {
        forall i, j | 0 <= i < j < |ps| - 1
          ensures ps[1..][i].id != ps[1..][j].id
        {
          assert ps[1..][i] == ps[i + 1] && ps[1..][j] == ps[j + 1];
        }
      }
      DistinctIdsOccurOnce(ps[1..], x);
      if ps[0] == x {
        assert x !in ps[1..] by {
          forall k | 0 <= k < |ps| - 1
            ensures ps[1..][k] != x
          {
            assert ps[1..][k] == ps[k + 1];
            assert ps[k + 1].id != ps[0].id;
          }
        }
      }
    }
  }

  lemma SameIdSamePlayer(ps: seq<Player>, p: Player, q: Player)
    requires DistinctIds(ps) && p in ps && q in ps && p.id == q.id
    ensures p == q
  {
    var i :| 0 <= i < |ps| && ps[i] == p;
    var j :| 0 <= j < |ps| && ps[j] == q;
  }

  /** Restricting to a set of ids keeps each player whose id is in the set as
      often as `ps` holds it, and no other player. */
  lemma {:induction false} PlacedCounts(ps: seq<Player>, ids: set<string>, x: Player)
    ensures multiset(Placed(ps, ids))[x] == if x.id in ids then multiset(ps)[x] else 0
    decreases |ps|
  {
    if |ps| > 0 {
      PlacedCounts(ps[1..], ids, x);
      assert ps == [ps[0]] + ps[1..];
    }
  }

  /** When ids are unique in `present` and `placed` draws on `present`, the
      players of `present` whose id is placed are exactly `placed`. */
  lemma PlacedIsPlacedIds(present: seq<Player>, placed: seq<Player>, x: Player)
    requires DistinctIds(present) && multiset(placed) <= multiset(present)
    ensures multiset(Placed(present, Ids(placed)))[x] == multiset(placed)[x]
  {
    PlacedCounts(present, Ids(placed), x);
    DistinctIdsOccurOnce(present, x);
    if x.id in Ids(placed) {
      var q :| q in placed && q.id == x.id;
      assert multiset(placed)[q] <= multiset(present)[q];
      if x in present {
        SameIdSamePlayer(present, x, q);
      }
    }
  }

  /** Splitting the present players by the ids of a selection drawn from them
      gives back the selection and the rest. */
  lemma PartitionByIds(present: seq<Player>, placed: seq<Player>)
    requires DistinctIds(present) && multiset(placed) <= multiset(present)
    ensures multiset(placed) + multiset(Unplaced(present, Ids(placed))) == multiset(present)
  {
    var ids := Ids(placed);
    SplitByIds(present, ids);
    forall x
      ensures multiset(Placed(present, ids))[x] == multiset(placed)[x]
    {
      PlacedIsPlacedIds(present, placed, x);
    }
    assert multiset(Placed(present, ids)) == multiset(placed);
  }

  /** When ids are unique among the present players and the teams hold only
      present players, each present player is either on a team or a reserve,
      never both and never twice. */
  lemma TeamsAndReservesPartitionPresent(players: seq<Player>, teams: seq<Team>)
    requires DistinctIds(Present(players))
    requires multiset(Members(TeamPlayers(teams))) <= multiset(Present(players))
    ensures multiset(Members(TeamPlayers(teams))) + multiset(GetReservePlayers(players, teams))
            == multiset(Present(players))
  {
    PartitionByIds(Present(players), Members(TeamPlayers(teams)));
  }

  /** `performShuffle(players, config)`: the teams of the first least-score
      iteration `chosen`, the present players left off those teams, and the
      balance statistics of the teams. */
  method PerformShuffle(players: seq<Player>, config: ShuffleConfig, draws: seq<seq<nat>>)
    returns (r: Result<ShuffleResult, ShuffleError>, chosen: nat)
    requires config.teamSize > 0
    requires |draws| == config.iterations
    requires DrawsSuffice(players, draws)
    ensures var present := Present(players);
      |present| < config.minPlayersForShuffle ==>
        r == Failure(NotEnoughPlayers(config.minPlayersForShuffle, |present|))
    ensures var present := Present(players);
      |present| >= config.minPlayersForShuffle && |present| / config.teamSize < 2 ==>
        r == Failure(NotEnoughTeams)
    ensures var present := Present(players);
      |present| >= config.minPlayersForShuffle && |present| / config.teamSize >= 2 ==> r.Success?
    ensures r.Success? && DistinctIds(Present(players)) ==>
      multiset(Members(TeamPlayers(r.value.teams))) + multiset(r.value.reservePlayers)
      == multiset(Present(players))
    ensures r.Success? && |draws| > 0 && DistinctIds(Present(players)) ==>
      && |r.value.teams| == |Present(players)| / config.teamSize
      && (forall k :: 0 <= k < |r.value.teams| ==> |r.value.teams[k].players| == config.teamSize)
      && |r.value.reservePlayers| == |Present(players)| % config.teamSize
    ensures r.Success? ==>
      var numTeams := |Present(players)| / config.teamSize;
      numTeams >= 2 && numTeams * config.teamSize <= |Present(players)|
    ensures r.Success? && |draws| == 0 ==> r.value.teams == []
    ensures r.Success? && |draws| > 0 ==>
      var present := Present(players);
      var numTeams := |present| / config.teamSize;
      && FirstMinimum(Scores(present, numTeams, config.teamSize, draws), chosen)
      && r.value.teams == TeamStats(Candidate(present, numTeams, config.teamSize, draws[chosen]))
    ensures r.Success? ==> r.value.reservePlayers == GetReservePlayers(players, r.value.teams)
    ensures r.Success? ==> r.value.balance == CalculateBalance(r.value.teams)
  {
    NumTeamsFit(|Present(players)|, config.teamSize);
    var shuffled;
    shuffled, chosen := ShuffleTeams(players, config, draws);
    if shuffled.Failure? {
      return Failure(shuffled.error), chosen;
    }
    var teams := shuffled.value;
    var reservePlayers := GetReservePlayers(players, teams);
    var balance := CalculateBalance(teams);
    if DistinctIds(Present(players)) {
      if |draws| == 0 {
        assert Members(TeamPlayers(teams)) == [];
      }
      TeamsAndReservesPartitionPresent(players, teams);
      if |draws| > 0 {
        ReservesLength(players, teams, config.teamSize);
      }
    }
    return Success(ShuffleResult(teams, reservePlayers, balance)), chosen;
  }

  /** Full teams leave the remainder of the present players on the bench. */
  lemma ReservesLength(players: seq<Player>, teams: seq<Team>, teamSize: nat)
    requires teamSize > 0
    requires DistinctIds(Present(players))
    requires multiset(Members(TeamPlayers(teams))) <= multiset(Present(players))
    requires |teams| == |Present(players)| / teamSize
    requires forall k :: 0 <= k < |teams| ==> |teams[k].players| == teamSize
    ensures |GetReservePlayers(players, teams)| == |Present(players)| % teamSize
  {
    var present := Present(players);
    TeamsAndReservesPartitionPresent(players, teams);
    NumTeamsFit(|present|, teamSize);
    MembersLength(TeamPlayers(teams), teamSize);
    assert |multiset(Members(TeamPlayers(teams)))| + |multiset(GetReservePlayers(players, teams))| == |present|;
  }

  lemma {:induction false} MembersLength(teams: seq<seq<Player>>, size: nat)
    requires forall k :: 0 <= k < |teams| ==> |teams[k]| == size
    ensures |Members(teams)| == |teams| * size
    decreases |teams|
  {
    if |teams| > 0 {
      MembersLength(teams[1..], size);
    }
  }
}
