# Dota 2 inhouse league: shuffler, bracket and login rate limiter

This project is a Dafny model of three pieces of the league organiser's web app:

- **The team shuffler** (`lib/shuffle.ts`).
  - It keeps the players marked `Present` and refuses when there are too few of them or too few for two teams.
  - It then runs a fixed number of iterations. Each one Fisher-Yates-shuffles the present players, deals the first `numTeams · teamSize` of them round-robin into teams, and scores the deal. The score is `roleScore · 100 + variance`. `roleScore` is 1000 per unmet role minimum plus 5 per unit of deviation from the ideal role mix. `variance` is the population variance of the teams' rounded average MMR.
  - It keeps the first deal with the lowest score, and reports the teams, the reserve players and the balance statistics.
- **The single-elimination bracket** (`lib/bracket.ts`). It covers:
  - generating the rounds, match ids `r{round}m{match}`, next-match wiring and sequential seeding with byes;
  - round names;
  - recording a winner, which moves the winner into the slot its match number's parity picks;
  - resetting a match, which cascades through every dependent result;
  - the lookups by id, the champion and completeness queries;
  - the standings table.
- **The login rate limiter** (`middleware.ts`). It is a fixed 60-second window of 5 POSTs per client IP on the two admin authentication paths. Records live in a map that is swept lazily once it holds more than 1000 entries. The client IP is the first entry of `x-forwarded-for`, trimmed. Otherwise it is `x-real-ip`, otherwise `"unknown"`.

The model is purely functional:

- In-place updates on deep copies become functions from the old rounds to the new.
- `Math.random` becomes a caller-supplied sequence of draws: one sequence per iteration and one draw per swap, with `j = draw mod (i + 1)`.
- `Date.now()` becomes a `now` parameter.
- The in-memory map becomes a `Store` value that is passed in and returned.
- JavaScript truthiness of nullable ids is modelled by `IsSet`: `null` and `""` are falsy.
- `Math.round` is `floor(x + 0.5)`, characterised by `r - 0.5 <= x < r + 0.5`.

The modules:

| module | file | what it holds |
|---|---|---|
| `Wrappers` | wrappers.dfy | `Option`, `Result`, JavaScript truthiness of a nullable string |
| `Text` | text.dfy | decimal rendering of numbers, `String.prototype.trim`, `split(',')[0]` |
| `Players` | players.dfy | players, teams, the `Present` filter, MMR totals |
| `Roles` | roles.dfy | `hasValidRoles` and `calculateRoleScore` |
| `Balance` | balance.dfy | `calculateTeamStats`, `calculateVariance`, `calculateBalance` |
| `Shuffle` | shuffle.dfy | `shuffleArray`, `shuffleTeams`, `getReservePlayers`, `performShuffle` |
| `Brackets` | bracket.dfy | bracket data, match ids, lookups, champion and completeness |
| `BracketBuild` | bracket_build.dfy | `generateSingleEliminationBracket`, seeding, round names |
| `BracketProgress` | bracket_progress.dfy | `setMatchWinner`, `resetMatch` |
| `Standings` | standings.dfy | `calculateStandings` |
| `RateLimit` | ratelimit.dfy | `getClientIP`, `isRateLimited`, `middleware` |

## Model

| member | source | states |
|---|---|---|
| Players.Present | lib/shuffle.ts:201 | a player is kept exactly when it is in the input with status `Present`; the result is no longer than the input |
| Players.PresentCounts | lib/shuffle.ts:201 | the filter keeps every present player as often as it occurs and drops every other player entirely |
| Players.TotalMmr | lib/shuffle.ts:59 | a team's MMR total is 0 for no players, at least every member's MMR, and 0 exactly when every member's MMR is 0 |
| Players.TotalMmrAppend | lib/shuffle.ts:59 | a team's MMR total is additive: the total of two groups together is the sum of their totals |
| Players.Members | lib/shuffle.ts:231-236 | a player is among the members of a list of teams exactly when some team holds it |
| Players.Ids | lib/shuffle.ts:275-280 | the id set holds the id of every player and only ids of players |
| Players.MembersAppend | lib/shuffle.ts:231-236 | the members of two lists of teams put together are the members of the first followed by those of the second |
| Roles.TallyTeamCounts | lib/shuffle.ts:162-168 | counting roles over a team adds, for each of the five known roles, the number of its occurrences among the players' preferred roles; unknown roles count nowhere |
| Roles.TallyRolesCounts | lib/shuffle.ts:163-167 | counting one player's preferred roles adds exactly the occurrences of each known role |
| Roles.CountRoles | lib/shuffle.ts:118-131 | a team's five role counters are the numbers of occurrences of the five role names among its members' preferred roles; other strings count nowhere |
| Roles.HasValidRoles | lib/shuffle.ts:117-145 | a team has valid roles exactly when its members' preferred roles hold at least 2 supports (hard or soft), a carry, a mid and an offlane |
| Roles.TeamPenalty | lib/shuffle.ts:153-182 | a team adds 0 exactly when it has 2 supports, 1 carry, 1 mid and 1 offlane, and at least 1005 when its roles are not valid |
| Roles.RoleScore | lib/shuffle.ts:150-186 | the role score is 0 exactly when every team adds 0 |
| Roles.CountRolesCountsOccurrences | lib/shuffle.ts:118-133 | a team's role counts are the multiplicities of the five role names among its preferred roles |
| Roles.HasValidRolesIffNoHardPenalty | lib/shuffle.ts:117-145 | a team has valid roles (2 supports, 1 carry, 1 mid, 1 offlane at least) exactly when it draws no 1000-point penalty; an invalid team costs at least 1005 |
| Roles.TeamPenaltyZeroIffIdeal | lib/shuffle.ts:170-182 | a team costs nothing exactly when it has 2 supports, 1 carry, 1 mid and 1 offlane |
| Roles.HardPenaltyCountsUnmetMinimums | lib/shuffle.ts:172-176 | the heavy penalty is 1000 times the number of unmet minimums |
| Roles.RoleScoreAppend | lib/shuffle.ts:150-186 | the role score of two lists of teams is the sum of their scores |
| Roles.InvalidTeamRaisesScore | lib/shuffle.ts:172-176 | adding a team without valid roles raises the role score by at least 1000 |
| Roles.RoleScoreZeroIffAllIdeal | lib/shuffle.ts:150-186 | the role score is 0 exactly when every team has the ideal role mix |
| Roles.PenaltyWithinScore | lib/shuffle.ts:153-183 | no single team's penalty exceeds the total role score |
| Roles.AllIdealScoreZero | lib/shuffle.ts:153-183 | teams that all cost nothing score 0 |
| Balance.JsRound | lib/shuffle.ts:60 | `Math.round`: the result is the integer within half a unit of `x`, halves rounding up |
| Balance.RoundedQuotient | lib/shuffle.ts:60 | the integer rounding of `total / n` is characterised by `2n·r <= 2·total + n < 2n·(r+1)` |
| Balance.RoundedQuotientIsJsRound | lib/shuffle.ts:60 | the integer rounding agrees with `Math.round` of the real quotient |
| Balance.MakeTeam | lib/shuffle.ts:58-68 | a team keeps its number and players, totals their MMR, averages 0 when empty and otherwise rounds the total over the size half-up |
| Balance.TeamStats | lib/shuffle.ts:57-69 | team `k` is numbered `k + 1`, holds the `k`-th player list, its total MMR and `Math.round(total / size)` (0 when empty) |
| Balance.Averages | lib/shuffle.ts:76 | the list of the teams' average MMRs, in team order |
| Balance.ScaledDeviations | lib/shuffle.ts:77-78 | each average's deviation from the mean, scaled by the team count |
| Balance.Variance | lib/shuffle.ts:75 | with no teams the variance is 0, and it is never negative |
| Balance.VarianceIsPopulationVariance | lib/shuffle.ts:74-82 | the variance is the population variance: the squared deviations from the mean summed and divided by the count |
| Balance.ScaledVariance | lib/shuffle.ts:77-79 | the integer-scaled sum of squares over `n³` equals the squared deviations from the mean over `n` |
| Balance.ScaledSquares | lib/shuffle.ts:78 | with `m = s/n`, the squares of `n·x − s` over `n³` equal the squares of `x − m` over `n` |
| Balance.ScaleSquares | lib/shuffle.ts:78 | scaling every deviation by `n` scales the sum of squares by `n²` |
| Balance.SumOfConstant | lib/shuffle.ts:77 | equal values sum to the count times the value |
| Balance.SumOfSquaresZeroIff | lib/shuffle.ts:78 | a sum of squares is 0 exactly when every term is 0 |
| Balance.VarianceZeroIffEqualAverages | lib/shuffle.ts:74-82 | the variance is 0 exactly when all teams have the same average |
| Balance.MinOf | lib/shuffle.ts:101 | `Math.min`: an element of the list that no element undercuts |
| Balance.MaxOf | lib/shuffle.ts:102 | `Math.max`: an element of the list that no element exceeds |
| Balance.CalculateBalance | lib/shuffle.ts:87-111 | all zeros for no teams; otherwise min and max are attained averages bounding all others, the spread is their difference, the reported mean is `Math.round` of the mean and lies between them, the reported variance is `Math.round` of the variance, and the spread is 0 exactly when the variance is 0 |
| Balance.SumWithinBounds | lib/shuffle.ts:77 | values between `lo` and `hi` sum to between `n·lo` and `n·hi` |
| Balance.MeanWithinBounds | lib/shuffle.ts:98-106 | the rounded mean of values between `lo` and `hi` lies between them |
| Shuffle.Swap | lib/shuffle.ts:49 | swapping exchanges the two entries and keeps the length |
| Shuffle.SwapPermutes | lib/shuffle.ts:49 | a swap is a permutation |
| Shuffle.Pick | lib/shuffle.ts:48 | the drawn index `j` is at most `i` |
| Shuffle.FisherYates | lib/shuffle.ts:47-50 | the swap loop from index `n − 1` down is a permutation of its input and leaves positions `n` and above untouched |
| Shuffle.ShuffleArray | lib/shuffle.ts:45-52 | the shuffled copy has the input's length and holds exactly the input's players, as often as they occur |
| Shuffle.MembersOfEmptyTeams | lib/shuffle.ts:231 | empty teams have no members |
| Shuffle.MembersPush | lib/shuffle.ts:235 | pushing a player onto one team adds exactly that player to the members |
| Shuffle.Deal | lib/shuffle.ts:231-236 | the deal makes `numTeams` teams; what each team receives is stated by `DealKeepsPlayers`, `DealLength` and `DealPosition` |
| Shuffle.DealKeepsPlayers | lib/shuffle.ts:233-236 | the dealt teams hold exactly the dealt players |
| Shuffle.DealLength | lib/shuffle.ts:233-236 | team `t` receives the number of indices below `n` congruent to `t` modulo `numTeams` |
| Shuffle.DealPosition | lib/shuffle.ts:233-236 | player `j·numTeams + u` is the `j`-th member of team `u` (round-robin by `i % numTeams`) |
| Shuffle.Candidate | lib/shuffle.ts:225-236 | one iteration's candidate has `numTeams` teams of exactly `teamSize` |
| Shuffle.DealSizes | lib/shuffle.ts:228-236 | dealing `numTeams · teamSize` players fills every team with exactly `teamSize` |
| Shuffle.DealtCountFull | lib/shuffle.ts:228-236 | dealing `numTeams · teamSize` players gives each team `teamSize` |
| Shuffle.CandidatePositions | lib/shuffle.ts:225-236 | member `j` of team `u` is the shuffled player at index `j·numTeams + u` |
| Shuffle.CandidatePlayers | lib/shuffle.ts:225-236 | a candidate's members are drawn from the present players, none more often than present |
| Shuffle.CombinedScore | lib/shuffle.ts:239-245 | the combined score is at least 100 times the role score, and 0 exactly when every team has the ideal role mix and all teams have the same average MMR |
| Shuffle.FirstMinimumUnique | lib/shuffle.ts:250 | the iteration kept is unique: the first with the least score |
| Shuffle.FirstMinimumExists | lib/shuffle.ts:223-260 | among any non-empty run of iterations there is a first one with the least score |
| Shuffle.FirstMinimumExtend | lib/shuffle.ts:247-254 | one more iteration replaces the best only when it is strictly better |
| Shuffle.NumTeamsFit | lib/shuffle.ts:210 | `floor(n / size)` teams of `size` fit into `n` players, leaving `n mod size` over |
| Shuffle.Search | lib/shuffle.ts:216-260 | with no iterations no teams are kept; otherwise the teams kept are the candidate of the first iteration with the least combined score |
| Shuffle.ShuffleTeams | lib/shuffle.ts:191-266 | too few present players gives the not-enough-players error with the required and actual counts; fewer than two teams gives the not-enough-teams error; otherwise it succeeds with `floor(present / teamSize)` teams numbered from 1, each of `teamSize` players drawn from the present players, being the stats of the first best-scoring candidate |
| Shuffle.TeamPlayers | lib/shuffle.ts:276-277 | the player lists of the teams, in order |
| Shuffle.Unplaced | lib/shuffle.ts:283 | keeps, in order, exactly the players whose id is not placed |
| Shuffle.Placed | lib/shuffle.ts:283 | keeps exactly the players whose id is placed |
| Shuffle.GetReservePlayers | lib/shuffle.ts:271-284 | the reserves are exactly the present players whose id is in no team, in their original order |
| Shuffle.SplitByIds | lib/shuffle.ts:283 | splitting by a set of ids loses and duplicates no player |
| Shuffle.DistinctIdsOccurOnce | lib/shuffle.ts:275-283 | with distinct ids, no player occurs twice |
| Shuffle.SameIdSamePlayer | lib/shuffle.ts:275-283 | with distinct ids, an id names one player |
| Shuffle.PlacedCounts | lib/shuffle.ts:283 | the placed players are exactly those with a placed id, as often as they occur |
| Shuffle.PlacedIsPlacedIds | lib/shuffle.ts:275-283 | with distinct ids, the present players with a placed id are the placed players |
| Shuffle.PartitionByIds | lib/shuffle.ts:275-283 | with distinct ids, the placed players and the reserves together are the present players |
| Shuffle.TeamsAndReservesPartitionPresent | lib/shuffle.ts:271-284 | with distinct ids, team members and reserves partition the present players |
| Shuffle.ReservesLength | lib/shuffle.ts:271-284 | with distinct ids and full teams, there are `present mod teamSize` reserves |
| Shuffle.MembersLength | lib/shuffle.ts:228-236 | `k` teams of `size` have `k · size` members |
| Shuffle.PerformShuffle | lib/shuffle.ts:289-302 | the same errors as the shuffle. On success: the teams are the stats of the candidate from the first least-score iteration `chosen`, or no teams without iterations; the reserves are the present players whose ids are on no team; and the balance is that of the teams. With distinct ids, the teams and reserves partition the present players, with `present mod teamSize` reserves |
| Text.NatToString | lib/bracket.ts:56 | a number's decimal rendering is non-empty, all digits, one digit exactly below 10, ending in its last digit |
| Text.NatToStringInjective | lib/bracket.ts:56 | different numbers render differently |
| Text.NatToStringValue | lib/bracket.ts:56 | the rendering of `n` is the decimal numeral for `n`: it denotes `n` and has no leading zero unless `n` is 0 |
| Text.CanonicalIsNatToString | lib/bracket.ts:56 | every decimal numeral without a leading zero is the rendering of the number it denotes, so rendering and reading are inverse on canonical numerals |
| Text.DigitsBeforeSeparator | lib/bracket.ts:56 | two digit strings followed by the same non-digit separator can be split apart uniquely |
| Text.TrimStartIndex | middleware.ts:14 | the first non-whitespace position from `i` on |
| Text.TrimEndIndex | middleware.ts:14 | the last non-whitespace position below `hi` |
| Text.Trim | middleware.ts:14 | `trim()`: a slice of the input with no leading or trailing whitespace, cutting only whitespace |
| Text.TrimSlice | middleware.ts:14 | the trimmed string starts at the first non-whitespace character |
| Text.FirstField | middleware.ts:14 | `split(',')[0]`: the longest prefix without the separator |
| Brackets.MatchIdInjective | lib/bracket.ts:56 | distinct (round, match) pairs get distinct ids |
| Brackets.MatchIdNonEmpty | lib/bracket.ts:56 | a match id is never empty, so a next-match id is always truthy |
| Brackets.Update | lib/bracket.ts:160-161 | writing one match changes that match and no other, and no round's number, name or size |
| Brackets.FindInRound | lib/bracket.ts:158 | `find`: the first index with the id, or none exactly when no match has it |
| Brackets.FindMatch | lib/bracket.ts:238-244 | the first match with the id in round order, or none exactly when no match has it |
| Brackets.FindMatchFrom | lib/bracket.ts:239-243 | the same search from a given round on |
| Brackets.GetMatchById | lib/bracket.ts:273-279 | a match is returned exactly when one has the id, and it has that id |
| Brackets.FindMatchSameIds | lib/bracket.ts:238-244 | the lookup depends only on the ids |
| Brackets.UpdateSameIds | lib/bracket.ts:160-161 | writing a match with the same id keeps every id in place |
| Brackets.UpdateAtSelf | lib/bracket.ts:160-161 | writing back the same match changes nothing |
| Brackets.UpdateTwice | lib/bracket.ts:160-161 | a second write to the same match overrides the first |
| Brackets.FindMatchUnique | lib/bracket.ts:238-244 | when an id is unique, the lookup finds that match's place |
| Brackets.GetChampion | lib/bracket.ts:249-256 | null for no rounds, otherwise the winner of the last round's first match |
| Brackets.IsBracketComplete | lib/bracket.ts:261-268 | complete exactly when there are rounds and the finals match is completed with a winner |
| Brackets.CompleteHasChampion | lib/bracket.ts:249-268 | a complete bracket has a champion: the finals' winner |
| BracketBuild.CeilLog2 | lib/bracket.ts:44-45 | the round count `e` is the least with `n <= 2^e`: `2^(e-1) < n <= 2^e` |
| BracketBuild.RoundNameCases | lib/bracket.ts:132-139 | Finals, Semi-Finals and Quarter-Finals for 0, 1 and 2 rounds from the end, and `Round n` exactly otherwise |
| BracketBuild.RoundNamesDistinct | lib/bracket.ts:132-139 | the rounds of one bracket have distinct names |
| BracketBuild.SkeletonAt | lib/bracket.ts:51-77 | round `k + 1` is numbered and named for its place, holds `2^(total − k − 1)` fresh matches `r{k+1}m{i+1}` |
| BracketBuild.SkeletonHalves | lib/bracket.ts:52 | each round has half the matches of the one before |
| BracketBuild.WireAt | lib/bracket.ts:79-88 | match `i` of every round but the last points at match `floor(i/2)` of the next; the last round is untouched |
| BracketBuild.WiredShape | lib/bracket.ts:51-88 | each wired round keeps its number, name and size |
| BracketBuild.WiredMatch | lib/bracket.ts:55-88 | every wired match is the fresh match pointing at its successor, or at none in the finals |
| BracketBuild.WiredMatchesUnseeded | lib/bracket.ts:55-88 | the same, for all matches at once |
| BracketBuild.WiredIsWiredAs | lib/bracket.ts:51-88 | the wired rounds have the shape and matches the first two loops promise |
| BracketBuild.WiredRoundsShaped | lib/bracket.ts:51-77 | every wired round is shaped |
| BracketBuild.ShapedSize | lib/bracket.ts:52 | the size of round `k + 1` of a shaped bracket |
| BracketBuild.SeedOne | lib/bracket.ts:110-125 | one pass of the loop fills the match from teams `teamIndex` and `teamIndex + 1` where they exist, completes a match left with only a first team, and moves `teamIndex` past the teams it used |
| BracketBuild.SeedFrom | lib/bracket.ts:108-126 | match `i` gets teams `2i` and `2i + 1` where they exist, and a match left with only a first team is completed with it as winner |
| BracketBuild.SeedFirstRound | lib/bracket.ts:91 | seeding rewrites the first round's matches only |
| BracketBuild.SeedKeepsShape | lib/bracket.ts:91 | seeding keeps every round's shape |
| BracketBuild.SeedDesigns | lib/bracket.ts:91-127 | after seeding every match is the designed one |
| BracketBuild.SeededKeepsFields | lib/bracket.ts:110-126 | seeding changes no id, number or next-match id |
| BracketBuild.Generate | lib/bracket.ts:38-94 | fewer than two teams is exactly the not-enough-teams error; otherwise at least one round |
| BracketBuild.GenerateDesigns | lib/bracket.ts:38-94 | for two or more teams the bracket has `ceil(log2 n)` rounds and every match is the designed one |
| BracketBuild.DesignedMatchFields | lib/bracket.ts:56-68 | a designed match's id, numbers and next-match id |
| BracketBuild.DesignedFields | lib/bracket.ts:56-88 | in a generated bracket, match `i` of round `k` is `r{k+1}m{i+1}` and points at `r{k+2}m{floor(i/2)+1}`, or at none in the finals |
| BracketBuild.NextRoundHalf | lib/bracket.ts:81-86 | the match a match feeds exists |
| BracketBuild.DesignWiring | lib/bracket.ts:79-88 | every match but the finals points at the id of match `floor(i/2)` of the next round; the finals points nowhere |
| BracketBuild.DesignSeeding | lib/bracket.ts:99-127 | first-round match `i` holds teams `2i` and `2i + 1` where they exist; it is completed with its first team as winner exactly when that team is set and the second is not; otherwise pending without winner |
| BracketBuild.TeamSeedPlacement | lib/bracket.ts:108-120 | team `k` sits in first-round match `floor(k/2)`, in slot 1 when `k` is even and slot 2 when odd |
| BracketBuild.ByeOnlyForOddLastTeam | lib/bracket.ts:121-125 | with non-empty team ids, a first-round match starts completed exactly when it holds the last team of an odd field alone |
| BracketBuild.LaterRoundsStartEmpty | lib/bracket.ts:58-67 | every match after the first round starts empty, without winner, pending |
| BracketBuild.DesignIdsDistinct | lib/bracket.ts:56 | no two matches of a generated bracket share an id |
| BracketBuild.DesignFinds | lib/bracket.ts:238-244 | the lookup finds every generated match at its own place |
| BracketBuild.FreshBracketNotComplete | lib/bracket.ts:261-268 | a freshly generated bracket (non-empty team ids) is not complete |
| BracketProgress.FillSlot | lib/bracket.ts:181-185 | fills slot 1 or slot 2 and nothing else |
| BracketProgress.ClearSlot | lib/bracket.ts:221-225 | clears slot 1 or slot 2 and nothing else |
| BracketProgress.NextPos | lib/bracket.ts:172-174 | the place of the match a match feeds, found only when its next-match id is truthy and names that match |
| BracketProgress.SameFramesSameIds | lib/bracket.ts:152 | brackets with the same match frames have the same ids |
| BracketProgress.SameFramesFind | lib/bracket.ts:238-244 | lookups agree on brackets with the same frames |
| BracketProgress.SameFramesTrans | lib/bracket.ts:152 | having the same frames is transitive |
| BracketProgress.OnlyClearedRefl | lib/bracket.ts:200-204 | a bracket differs from itself only by clearing |
| BracketProgress.OnlyClearedTrans | lib/bracket.ts:206-236 | clearing steps compose |
| BracketProgress.UpdateSameFrames | lib/bracket.ts:160-161 | writing a match with the same frame keeps all frames |
| BracketProgress.UpdateOnlyCleared | lib/bracket.ts:211-225 | writing a match that only clears results keeps the bracket "only cleared" |
| BracketProgress.SetMatchWinner | lib/bracket.ts:147-195 | fails with match-not-found exactly when no match has the id; otherwise changes no id, number or wiring |
| BracketProgress.Receive | lib/bracket.ts:181-190 | the fed match gets the winner in the chosen slot, keeps the other slot, and becomes pending when both slots are truthy |
| BracketProgress.SetStep | lib/bracket.ts:157-192 | recording is: write winner and completed, then feed the next match if any |
| BracketProgress.SetMatchWinnerRecords | lib/bracket.ts:157-165 | the found match records the winner, completed unless it feeds itself |
| BracketProgress.SetMatchWinnerLocal | lib/bracket.ts:147-195 | no match other than the found one and the one it feeds changes |
| BracketProgress.SetMatchWinnerFeeds | lib/bracket.ts:172-192 | the fed match gets the winner in the slot the parity picks, keeps the other slot and winner, and is pending when both slots are set, else keeps its status |
| BracketProgress.WonInUpdate | lib/bracket.ts:228 | replacing a match changes the count of matches with a truthy winner by the difference |
| BracketProgress.WonCountUpdate | lib/bracket.ts:228 | the same, over all rounds |
| BracketProgress.ResetDecreases | lib/bracket.ts:227-229 | each recursive reset is on a bracket with fewer results to clear, so the cascade always ends |
| BracketProgress.ResetMatch | lib/bracket.ts:200-236 | a reset only clears winners, slots and statuses, and nothing else changes; an unknown id leaves the bracket as it was |
| BracketProgress.ClearTarget | lib/bracket.ts:211-212 | clearing the target only clears |
| BracketProgress.ResetStep | lib/bracket.ts:206-236 | one step of the cascade: clear target, clear the fed slot, then recurse on the fed match when it has a winner, else mark it pending |
| BracketProgress.ResetNoNext | lib/bracket.ts:215-217 | without a next match, reset only clears the target |
| BracketProgress.ResetAfterFirstWrite | lib/bracket.ts:206-236 | after the target is cleared, the rest of the reset only clears |
| BracketProgress.ResetMatchClearsTarget | lib/bracket.ts:210-212 | after a reset the target has no winner and is pending |
| BracketProgress.ResetMatchClearsNext | lib/bracket.ts:214-235 | after a reset the fed match's slot is empty, it has no winner and is pending |
| BracketProgress.ResetFedMatch | lib/bracket.ts:227-229 | the recursive reset leaves the fed match at most cleared |
| BracketProgress.ResetMatchIdempotent | lib/bracket.ts:200-236 | resetting twice is resetting once |
| BracketProgress.ClearTargetOfCleared | lib/bracket.ts:210-212 | clearing an already cleared match changes nothing |
| BracketProgress.SetMatchWinnerReady | lib/bracket.ts:147-195 | when the fed match is pending with the slot free, recording writes exactly the winner and the slot |
| BracketProgress.ResetMatchShallow | lib/bracket.ts:206-236 | when the fed match has no winner, a reset touches exactly the target and the fed slot |
| BracketProgress.SameFramesNextPos | lib/bracket.ts:172-179 | routing depends only on the frames |
| BracketProgress.SetThenReset | lib/bracket.ts:147-236 | when the fed match is ready (its slot free, no truthy winner, pending, and not the match itself), recording a winner and resetting that match leaves the bracket as it was, except that the match is cleared |
| BracketProgress.SetThenResetRestores | lib/bracket.ts:147-236 | on an unplayed match with a ready next match, set then reset is the identity |
| BracketProgress.RouteInDesign | lib/bracket.ts:172-185 | in a generated bracket the winner of match `i` of round `k` goes to match `floor(i/2)` of round `k + 1`, in slot 1 exactly when `i` is even |
| BracketProgress.WinnerRoute | lib/bracket.ts:172-185 | the same routing holds after any sequence of recordings and resets |
| BracketProgress.Play | lib/bracket.ts:147-236 | a run of recordings and resets never changes ids, numbers or wiring, and fails only with match-not-found |
| Standings.InitStandings | lib/bracket.ts:285-292 | one zeroed standing per team, in team order |
| Standings.AllMatches | lib/bracket.ts:295-296 | the matches of all rounds |
| Standings.ByeIsWinWithoutLoss | lib/bracket.ts:297-305 | a completed bye is a win for its team and a loss for nobody |
| Standings.PlayedMatchCredits | lib/bracket.ts:297-305 | a completed match between two teams credits the winner a win and the other team a loss |
| Standings.FindStanding | lib/bracket.ts:298 | the first standing with the id, or none exactly when none has it |
| Standings.InsertByWins | lib/bracket.ts:318 | insertion adds exactly the new entry and keeps the table sorted by wins |
| Standings.SortByWins | lib/bracket.ts:318 | the table comes out sorted by wins, most first |
| Standings.InsertPermutes | lib/bracket.ts:318 | insertion adds one entry and loses none |
| Standings.SortPermutes | lib/bracket.ts:318 | sorting is a permutation |
| Standings.InsertStable | lib/bracket.ts:318 | insertion keeps the order among equal wins |
| Standings.SortStable | lib/bracket.ts:318 | the sort is stable: teams with equal wins keep their order |
| Standings.CalculateStandings | lib/bracket.ts:284-321 | one standing per team, sorted by wins |
| Standings.Credit | lib/bracket.ts:298-304 | the first standing with the id gains one win (or one loss); every other standing is unchanged, and nothing changes when the id is absent |
| Standings.TallyMatch | lib/bracket.ts:297-305 | one match changes only wins and losses, and never lowers them |
| Standings.Tally | lib/bracket.ts:295-308 | the loop over all matches changes only wins and losses, and never lowers them |
| Standings.MarkChampion | lib/bracket.ts:310-315 | exactly the first standing with the truthy champion's id gets placing 1; everything else is unchanged |
| Standings.FindDistinct | lib/bracket.ts:298 | with distinct ids the lookup finds a team's own standing |
| Standings.CreditDistinct | lib/bracket.ts:298-304 | crediting adds one to exactly the named team |
| Standings.CreditKeepsIds | lib/bracket.ts:298-304 | crediting changes no team id |
| Standings.TallyMatchDistinct | lib/bracket.ts:297-305 | one match adds its win credit and loss credit to exactly those teams |
| Standings.TallyDistinct | lib/bracket.ts:295-308 | each team's wins and losses are the number of matches crediting it |
| Standings.MarkChampionDistinct | lib/bracket.ts:311-315 | exactly the champion's standing is placed first |
| Standings.StandingsAreExpected | lib/bracket.ts:284-321 | with distinct team ids, the table is a stable reordering of the reference table |
| Standings.ChampionPlacedFirst | lib/bracket.ts:310-315 | with distinct team ids, a team is placed first exactly when it is the truthy champion |
| RateLimit.Cleanup | middleware.ts:22-29 | at or below 1000 entries nothing is swept; above, exactly the expired records go and the others stay unchanged |
| RateLimit.Step | middleware.ts:31-49 | limited exactly when a live record has reached 5; a missing or expired record restarts at 1 with a fresh 60 s window; otherwise the count goes up by one; only the caller's record changes |
| RateLimit.IsRateLimited | middleware.ts:19-50 | a request is refused exactly when the caller's record is unexpired and already at the limit; an admitted caller gets a fresh one-request window if its record was missing or expired and one more request counted otherwise; no other record changes, and only expired ones disappear |
| RateLimit.CleanupUnobservable | middleware.ts:22-49 | the sweep never changes a verdict or a live record |
| RateLimit.IsRateLimitedKeepsValid | middleware.ts:19-50 | counters stay between 1 and 5 |
| RateLimit.LimitedOnlySweeps | middleware.ts:44-46 | a refused call changes nothing but the sweep, and means the caller's live record was at 5 |
| RateLimit.RunKeepsValid | middleware.ts:19-50 | counters stay between 1 and 5 over any sequence of calls |
| RateLimit.LiveRecordStep | middleware.ts:31-49 | within its window, a record keeps its reset time and grows only on an admitted call of its own |
| RateLimit.LiveWindowBound | middleware.ts:44-49 | within one window, an IP is admitted at most `5 − count` more times |
| RateLimit.WindowBound | middleware.ts:19-50 | a fresh window admits at most 5 calls from one IP |
| RateLimit.ExpiredAdmits | middleware.ts:38-42 | an expired record is admitted and restarted |
| RateLimit.FillWindow | middleware.ts:44-49 | calls within a live window are admitted until the count reaches 5 |
| RateLimit.SixthCallRefused | middleware.ts:8-9 | from an empty store, five calls at one instant are admitted and the sixth is refused |
| RateLimit.GetClientIP | middleware.ts:11-17 | a truthy forwarded header gives its first entry: the text up to the first comma with the whitespace at both ends removed; otherwise a truthy real-IP header; otherwise `unknown` |
| RateLimit.TrimFirstField | middleware.ts:14 | `split(',')[0].trim()` is the first entry of the header |
| RateLimit.EntryOfPrefix | middleware.ts:14 | trimming the text before the first comma (or the whole header, when it has none) gives its first entry |
| RateLimit.FirstEntryUnique | middleware.ts:14 | a header has at most one first entry with no whitespace at its ends, so the contract of `GetClientIP` fixes the address |
| RateLimit.ForwardedIsTrimmedFirstField | middleware.ts:14 | any string meeting that contract is `split(',')[0].trim()` |
| RateLimit.ForwardedSingleEntry | middleware.ts:12-14 | a single forwarded address without commas gives that address, trimmed |
| RateLimit.ForwardedFirstEntry | middleware.ts:12-14 | `a,b` forwarded gives `trim(a)` |
| RateLimit.FirstFieldPrefix | middleware.ts:14 | the first field is the text before the first comma |
| RateLimit.NoForwardedNonEmpty | middleware.ts:16 | without a forwarded header the address is never empty |
| RateLimit.Middleware | middleware.ts:52-70 | only POSTs to the two admin paths are ever refused, and every other request passes with the store untouched; a login POST is refused exactly when its client's live record has reached 5; if it is admitted, the client's record is restarted or counted up; if it is refused, the client's record is kept; other clients' records are kept, and only expired ones may be swept |
| RateLimit.RepeatCounts | middleware.ts:19-50 | starting from an empty store, after `n <= 5` login POSTs by one client at one instant, that client's record holds count `n` and the reset time one window ahead |
| RateLimit.MiddlewareSixthAttemptRefused | middleware.ts:56-66 | through the middleware, a client's first five login attempts in a window are let through and the sixth gets a 429 |
| RateLimit.MiddlewareRefusesFullWindow | middleware.ts:56-66 | a login POST is refused with 429 exactly when its IP's live record has reached 5 |

## Left out

- `Math.log2` and `Math.pow` in floating point: the round count is the least `e` with `n <= 2^e`, computed on integers. Floating-point rounding inside `Math.log2` is not modelled.
- `Math.random` and `Date.now()`: both are parameters (draws, `now`). The second `Math.random` call at `lib/shuffle.ts:263` only feeds a log line.
- `console.log`: no effect on results.
- The `Partial<ShuffleConfig>` merge with `DEFAULT_CONFIG`: `ShuffleTeams` and `PerformShuffle` take the merged configuration. `Shuffle.DefaultConfig` holds the defaults.
- `Shuffle.ShuffleTeams` and `Shuffle.PerformShuffle`: they require `teamSize > 0`, so the source's behaviour at 0 is not modelled. There, `numTeams` is `Infinity` when players are present, and `NaN` when none are, which passes only when `minPlayersForShuffle` is 0. Neither value fails `numTeams < 2`. With `Infinity` and at least one iteration, `Array.from({ length: Infinity })` throws a `RangeError`. With `Infinity` and no iterations, the source returns no teams. With `NaN`, `Array.from` makes no teams, so the source also returns no teams.
- `Shuffle.ShuffleTeams`: the model requires enough draws for every iteration, one per swap, since it is the caller who supplies the randomness.
- `Balance.Variance`, `Balance.CalculateBalance`, `Shuffle.CombinedScore`, `Shuffle.Search` and `Shuffle.ShuffleTeams`: the source computes the mean, the variance and the combined score in IEEE doubles. The model computes the same expressions exactly over the reals, so rounding error is not modelled. This can change visible results. Two candidates with the same team averages in a different team order score exactly the same in the model, so the model keeps the earlier one. With three or more teams their double-precision variances can differ in the last bit, and the source's strict `<` may then keep the later one. The same rounding can move `Math.round(variance)` in `calculateBalance` across a half.
- `Shuffle.Deal`: its own contract states only that it makes `numTeams` teams. What each team receives is stated by `Shuffle.DealKeepsPlayers`, `Shuffle.DealLength` and `Shuffle.DealPosition`. These are kept as lemmas because a multiset postcondition on the recursive deal would enter every proof that mentions a candidate.
- MMR is modelled as a natural number. The source's `number` admits fractions and negatives, which the app does not produce.
- The `teamSize` parameter of `getReservePlayers` is unused by the source and is dropped.
- `Shuffle.PerformShuffle`: the partition of teams and reserves is proved only when the present players have distinct ids. With repeated ids, the source's id filter drops duplicates of a placed id from the reserves.
- `Standings.StandingsAreExpected`: proved for distinct team ids. With repeated ids, `find` credits only the first standing with the id.
- `Brackets.GetChampion`, `Brackets.IsBracketComplete` and `Standings.CalculateStandings`: they require the last round to have a match (`HasFinalsMatch`). The source reads `finals.matches[0].winnerId` without checking and throws a `TypeError` on an empty finals round, which generated brackets never have. `calculateStandings` reaches that read through `getChampion` (`lib/bracket.ts:311`).
- The `'in_progress'` status is declared but never set by the source, so no operation produces it.
- The deep copies (`JSON.parse(JSON.stringify(rounds))`) are implicit: every operation returns a new value.
- `NextResponse.json` and `NextResponse.next()`: the model's `Response` is `TooManyAttempts` (HTTP 429, `RateLimit.TooManyStatus`) or `Next`. The error body text is not modelled.
- The middleware `config.matcher` export is Next.js routing configuration and is not part of this model.
- The `Bracket` interface (`lib/bracket.ts:28-33`) is a container the functions never take, and is not part of this model.
