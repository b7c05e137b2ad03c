/** Role scoring of candidate teams (lib/shuffle.ts, `hasValidRoles` and
    `calculateRoleScore`). Every occurrence of a known role name in a member's
    preferred roles is counted; any other string is ignored. */
module Roles {
  import opened Players

  const Carry: string := "Carry"
  const Mid: string := "Mid"
  const Offlane: string := "Offlane"
  const SoftSupport: string := "Soft Support"
  const HardSupport: string := "Hard Support"

  /** The five role names registration accepts. */
  const KnownRoles: seq<string> := [Carry, Mid, Offlane, SoftSupport, HardSupport]

  /** Penalty for each unmet minimum requirement of a team. */
  const HardPenaltyPoints: nat := 1000
  /** Penalty per unit of deviation from the ideal 2/1/1/1 distribution. */
  const DeviationPoints: nat := 5

  datatype RoleCounts = RoleCounts(hardSupport: nat, softSupport: nat, carry: nat, mid: nat, offlane: nat)

  const NoRoles := RoleCounts(0, 0, 0, 0, 0)

  /** One `roleCounts[role]++`, skipped when the role is not one of the five. */
  function Tally(c: RoleCounts, role: string): RoleCounts {
    if role == HardSupport then c.(hardSupport := c.hardSupport + 1)
    else if role == SoftSupport then c.(softSupport := c.softSupport + 1)
    else if role == Carry then c.(carry := c.carry + 1)
    else if role == Mid then c.(mid := c.mid + 1)
    else if role == Offlane then c.(offlane := c.offlane + 1)
    else c
  }

  function TallyRoles(c: RoleCounts, roles: seq<string>): RoleCounts
    decreases |roles|
  {
    if |roles| == 0 then c else TallyRoles(Tally(c, roles[0]), roles[1..])
  }

  function TallyTeam(c: RoleCounts, team: seq<Player>): RoleCounts
    decreases |team|
  {
    if |team| == 0 then c else TallyTeam(TallyRoles(c, team[0].preferredRoles), team[1..])
  }

  /** Role counters of one team, as both source functions compute them:
      each counter is the number of occurrences of its role name among the
      members' preferred roles. */
  function CountRoles(team: seq<Player>): (r: RoleCounts)
    ensures var m := multiset(RolesOf(team));
      r == RoleCounts(m[HardSupport], m[SoftSupport], m[Carry], m[Mid], m[Offlane])
  {
    TallyTeamCounts(NoRoles, team);
    TallyTeam(NoRoles, team)
  }

  /** Every role occurrence of every member, in team order. */
  function RolesOf(team: seq<Player>): seq<string> {
    if |team| == 0 then [] else team[0].preferredRoles + RolesOf(team[1..])
  }

  function Supports(c: RoleCounts): nat {
    c.hardSupport + c.softSupport
  }

  /** At least 2 supports, 1 carry, 1 mid and 1 offlane. */
  predicate MeetsMinimums(c: RoleCounts) {
    Supports(c) >= 2 && c.carry >= 1 && c.mid >= 1 && c.offlane >= 1
  }

  /** `hasValidRoles(team)`: among the members' preferred roles there are at
      least 2 supports, a carry, a mid and an offlane. */
  predicate HasValidRoles(team: seq<Player>): (b: bool)
    ensures var m := multiset(RolesOf(team));
      b <==> m[HardSupport] + m[SoftSupport] >= 2 && m[Carry] >= 1 && m[Mid] >= 1 && m[Offlane] >= 1
  {
    MeetsMinimums(CountRoles(team))
  }

  function Abs(x: int): nat {
    if x < 0 then -x else x
  }

  /** The four stacked 1000-point penalties. */
  function HardPenalty(c: RoleCounts): nat {
    (if Supports(c) < 2 then HardPenaltyPoints else 0)
    + (if c.carry < 1 then HardPenaltyPoints else 0)
    + (if c.mid < 1 then HardPenaltyPoints else 0)
    + (if c.offlane < 1 then HardPenaltyPoints else 0)
  }

  /** The 5-point-per-unit deviation from 2 supports, 1 carry, 1 mid, 1 offlane. */
  function DeviationPenalty(c: RoleCounts): nat {
    DeviationPoints * Abs(2 - Supports(c))
    + DeviationPoints * Abs(1 - c.carry)
    + DeviationPoints * Abs(1 - c.mid)
    + DeviationPoints * Abs(1 - c.offlane)
  }

  /** What one team adds to `totalScore` in `calculateRoleScore`: nothing
      exactly for the ideal 2/1/1/1 team, at least 1005 for a team without
      valid roles. */
  function TeamPenalty(team: seq<Player>): (p: nat)
    ensures var c := CountRoles(team);
      p == 0 <==> Supports(c) == 2 && c.carry == 1 && c.mid == 1 && c.offlane == 1
    ensures !HasValidRoles(team) ==> p >= HardPenaltyPoints + DeviationPoints
  {
    var c := CountRoles(team);
    HardPenalty(c) + DeviationPenalty(c)
  }

  /** `calculateRoleScore(teams)`: the penalties of all teams added up. It is
      0 exactly when every team is ideal. */
  function RoleScore(teams: seq<seq<Player>>): (s: nat)
    ensures s == 0 <==> forall t :: 0 <= t < |teams| ==> TeamPenalty(teams[t]) == 0
  {
    if |teams| == 0 then 0 else TeamPenalty(teams[0]) + RoleScore(teams[1..])
  }

  /** The counters hold exactly the number of occurrences of each role name
      among the members' preferred roles. */
  lemma {:induction false} TallyTeamCounts(c: RoleCounts, team: seq<Player>)
    ensures var r := TallyTeam(c, team); var m := multiset(RolesOf(team));
      && r.hardSupport == c.hardSupport + m[HardSupport]
      && r.softSupport == c.softSupport + m[SoftSupport]
      && r.carry == c.carry + m[Carry]
      && r.mid == c.mid + m[Mid]
      && r.offlane == c.offlane + m[Offlane]
    decreases |team|
  {
    if |team| > 0 {
      var c' := TallyRoles(c, team[0].preferredRoles);
      TallyRolesCounts(c, team[0].preferredRoles);
      TallyTeamCounts(c', team[1..]);
    }
  }

  lemma {:induction false} TallyRolesCounts(c: RoleCounts, roles: seq<string>)
    ensures var r := TallyRoles(c, roles); var m := multiset(roles);
      && r.hardSupport == c.hardSupport + m[HardSupport]
      && r.softSupport == c.softSupport + m[SoftSupport]
      && r.carry == c.carry + m[Carry]
      && r.mid == c.mid + m[Mid]
      && r.offlane == c.offlane + m[Offlane]
    decreases |roles|
  {
    if |roles| > 0 {
      assert roles == [roles[0]] + roles[1..];
      TallyRolesCounts(Tally(c, roles[0]), roles[1..]);
    }
  }

  /** `CountRoles` counts role occurrences, so it depends only on the multiset
      of role names of the team. */
  lemma CountRolesCountsOccurrences(team: seq<Player>)
    ensures var r := CountRoles(team); var m := multiset(RolesOf(team));
      r == RoleCounts(m[HardSupport], m[SoftSupport], m[Carry], m[Mid], m[Offlane])
  {
    TallyTeamCounts(NoRoles, team);
  }

  /** A team with valid roles is exactly one that pays none of the four
      1000-point penalties. */
  lemma HasValidRolesIffNoHardPenalty(team: seq<Player>)
    ensures HasValidRoles(team) <==> HardPenalty(CountRoles(team)) == 0
    ensures !HasValidRoles(team) ==> TeamPenalty(team) >= HardPenaltyPoints + DeviationPoints
  {
  }

  /** A team contributes 0 exactly when it has 2 supports, 1 carry, 1 mid and
      1 offlane. */
  lemma TeamPenaltyZeroIffIdeal(team: seq<Player>)
    ensures var c := CountRoles(team);
      TeamPenalty(team) == 0 <==> Supports(c) == 2 && c.carry == 1 && c.mid == 1 && c.offlane == 1
  {
  }

  /** Each unmet minimum adds exactly 1000 on top of the deviation terms. */
  lemma HardPenaltyCountsUnmetMinimums(c: RoleCounts)
    ensures HardPenalty(c) == HardPenaltyPoints * UnmetAmong(c, 4)
  {
    assert UnmetAmong(c, 2) == (if Satisfied(c, 0) then 0 else 1) + (if Satisfied(c, 1) then 0 else 1);
    assert UnmetAmong(c, 4) == UnmetAmong(c, 2) + (if Satisfied(c, 2) then 0 else 1) + (if Satisfied(c, 3) then 0 else 1);
  }

  /** How many of the minimum requirements `0 .. k - 1` the counters miss. */
  function UnmetAmong(c: RoleCounts, k: nat): nat
    decreases k
  {
    if k == 0 then 0 else UnmetAmong(c, k - 1) + (if Satisfied(c, k - 1) then 0 else 1)
  }

  /** The four minimum requirements, numbered 0 (supports) to 3 (offlane). */
  predicate Satisfied(c: RoleCounts, k: nat) {
    if k == 0 then Supports(c) >= 2
    else if k == 1 then c.carry >= 1
    else if k == 2 then c.mid >= 1
    else c.offlane >= 1
  }

  /** The role score of a list of teams is the sum of the scores of its parts. */
  lemma {:induction false} RoleScoreAppend(a: seq<seq<Player>>, b: seq<seq<Player>>)
    ensures RoleScore(a + b) == RoleScore(a) + RoleScore(b)
    decreases |a|
  {
    if |a| == 0 {
      assert a + b == b;
    } else {
      assert (a + b)[1..] == a[1..] + b;
      RoleScoreAppend(a[1..], b);
    }
  }

  /** Adding a team that lacks a required role raises the score by at least 1000. */
  lemma InvalidTeamRaisesScore(teams: seq<seq<Player>>, team: seq<Player>)
    requires !HasValidRoles(team)
    ensures RoleScore(teams + [team]) >= RoleScore(teams) + HardPenaltyPoints
  {
    RoleScoreAppend(teams, [team]);
    HasValidRolesIffNoHardPenalty(team);
  }

  /** Role score 0 means every team has the exact ideal distribution. */
  lemma RoleScoreZeroIffAllIdeal(teams: seq<seq<Player>>)
    ensures RoleScore(teams) == 0 <==> forall t :: 0 <= t < |teams| ==> TeamPenalty(teams[t]) == 0
  {
    if RoleScore(teams) == 0 {
      forall t | 0 <= t < |teams|
        ensures TeamPenalty(teams[t]) == 0
      {
        PenaltyWithinScore(teams, t);
      }
    }
    if forall t :: 0 <= t < |teams| ==> TeamPenalty(teams[t]) == 0 {
      AllIdealScoreZero(teams);
    }
  }

  /** No single team's penalty exceeds the score of the whole partition. */
  lemma {:induction false} PenaltyWithinScore(teams: seq<seq<Player>>, t: nat)
    requires t < |teams|
    ensures TeamPenalty(teams[t]) <= RoleScore(teams)
    decreases t
  {
    assert RoleScore(teams) == TeamPenalty(teams[0]) + RoleScore(teams[1..]);
    if t > 0 {
      PenaltyWithinScore(teams[1..], t - 1);
      assert teams[1..][t - 1] == teams[t];
    }
  }

  /** A partition of ideal teams scores 0. */
  lemma {:induction false} AllIdealScoreZero(teams: seq<seq<Player>>)
    requires forall t :: 0 <= t < |teams| ==> TeamPenalty(teams[t]) == 0
    ensures RoleScore(teams) == 0
    decreases |teams|
  {
    if |teams| > 0 {
      assert RoleScore(teams) == TeamPenalty(teams[0]) + RoleScore(teams[1..]);
      forall t | 0 <= t < |teams[1..]|
        ensures TeamPenalty(teams[1..][t]) == 0
      {
        assert TeamPenalty(teams[t + 1]) == 0;
        assert teams[1..][t] == teams[t + 1];
      }
      AllIdealScoreZero(teams[1..]);
    }
  }
}
