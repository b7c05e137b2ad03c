/** Playing a bracket (lib/bracket.ts, `setMatchWinner`, `resetMatch` and
    `resetMatchRecursive`): recording a winner moves it into the slot of the
    match it feeds, and resetting a match clears its result and, through the
    chain of next matches, every result that depended on it. Both work on a
    copy, so they are functions from the old rounds to the new. */
module BracketProgress {
  import opened Wrappers
  import opened Brackets
  import opened BracketBuild

  // ----- slots ------------------------------------------------------------------------

  /** Odd-numbered matches feed the first slot of their next match, even ones
      the second. */
  predicate FeedsSlot1(m: Match) {
    m.matchNumber % 2 != 0
  }

  function FillSlot(m: Match, slot1: bool, teamId: string): (r: Match)
    ensures slot1 ==> r == m.(team1Id := Some(teamId))
    ensures !slot1 ==> r == m.(team2Id := Some(teamId))
  {
    if slot1 then m.(team1Id := Some(teamId)) else m.(team2Id := Some(teamId))
  }

  function ClearSlot(m: Match, slot1: bool): (r: Match)
    ensures slot1 ==> r == m.(team1Id := None)
    ensures !slot1 ==> r == m.(team2Id := None)
  {
    if slot1 then m.(team1Id := None) else m.(team2Id := None)
  }

  function Slot(m: Match, slot1: bool): Option<string> {
    if slot1 then m.team1Id else m.team2Id
  }

  /** Where the winner of the match at `p` goes: the first match holding its
      next-match id, when that id is truthy and some match has it. */
  function NextPos(rounds: seq<Round>, p: Pos): (r: Option<Pos>)
    requires ValidPos(rounds, p)
    ensures r.Some? ==>
      && ValidPos(rounds, r.value)
      && IsSet(At(rounds, p).nextMatchId)
      && At(rounds, r.value).id == At(rounds, p).nextMatchId.value
  {
    var m := At(rounds, p);
    if IsSet(m.nextMatchId) then FindMatch(rounds, m.nextMatchId.value) else None
  }

  // ----- what the operations may change ---------------------------------------------------

  /** A match with its result fields blanked: what neither operation ever
      changes. */
  function Frame(m: Match): Match {
    m.(team1Id := None, team2Id := None, winnerId := None, status := Pending)
  }

  /** The same rounds with the same matches, up to slots, winners and
      statuses. */
  ghost predicate SameFrames(a: seq<Round>, b: seq<Round>) {
    && |a| == |b|
    && (forall k :: 0 <= k < |a| ==>
          && a[k].roundNumber == b[k].roundNumber
          && a[k].roundName == b[k].roundName
          && |a[k].matches| == |b[k].matches|)
    && (forall q :: ValidPos(a, q) ==> Frame(At(a, q)) == Frame(At(b, q)))
  }

  /** `b` is `a` with some slots and winners emptied and some statuses set to
      pending, and nothing else. */
  predicate ClearedFrom(a: Match, b: Match) {
    && Frame(a) == Frame(b)
    && (b.team1Id == a.team1Id || b.team1Id.None?)
    && (b.team2Id == a.team2Id || b.team2Id.None?)
    && (b.winnerId == a.winnerId || b.winnerId.None?)
    && (b.status == a.status || b.status == Pending)
  }

  ghost predicate OnlyCleared(a: seq<Round>, b: seq<Round>) {
    && SameFrames(a, b)
    && forall q :: ValidPos(a, q) ==> ClearedFrom(At(a, q), At(b, q))
  }

  lemma SameFramesSameIds(a: seq<Round>, b: seq<Round>)
    requires SameFrames(a, b)
    ensures SameIds(a, b)
  {
    forall q | ValidPos(a, q)
      ensures At(a, q).id == At(b, q).id
    {
      assert Frame(At(a, q)).id == Frame(At(b, q)).id;
    }
  }

  /** Equal frames mean equal ids, so every lookup lands where it did. */
  lemma SameFramesFind(a: seq<Round>, b: seq<Round>, id: string)
    requires SameFrames(a, b)
    ensures FindMatch(a, id) == FindMatch(b, id)
  {
    SameFramesSameIds(a, b);
    FindMatchSameIds(a, b, id);
  }

  lemma SameFramesTrans(a: seq<Round>, b: seq<Round>, c: seq<Round>)
    requires SameFrames(a, b) && SameFrames(b, c)
    ensures SameFrames(a, c)
  {
    forall q | ValidPos(a, q)
      ensures Frame(At(a, q)) == Frame(At(c, q))
    {
      assert ValidPos(b, q);
    }
  }

  lemma OnlyClearedRefl(a: seq<Round>)
    ensures OnlyCleared(a, a)
  {
    forall q | ValidPos(a, q)
      ensures Frame(At(a, q)) == Frame(At(a, q))
    {
    }
  }

  lemma OnlyClearedTrans(a: seq<Round>, b: seq<Round>, c: seq<Round>)
    requires OnlyCleared(a, b) && OnlyCleared(b, c)
    ensures OnlyCleared(a, c)
  {
    SameFramesTrans(a, b, c);
    forall q | ValidPos(a, q)
      ensures ClearedFrom(At(a, q), At(c, q))
    {
      assert ValidPos(b, q);
    }
  }

  /** Writing a match with the same frame keeps every frame. */
  lemma UpdateSameFrames(rounds: seq<Round>, p: Pos, m: Match)
    requires ValidPos(rounds, p) && Frame(m) == Frame(At(rounds, p))
    ensures SameFrames(rounds, Update(rounds, p, m))
  {
  }

  lemma UpdateOnlyCleared(rounds: seq<Round>, p: Pos, m: Match)
    requires ValidPos(rounds, p) && ClearedFrom(At(rounds, p), m)
    ensures OnlyCleared(rounds, Update(rounds, p, m))
  {
    UpdateSameFrames(rounds, p, m);
  }

  // ----- setting a winner --------------------------------------------------------------

  /** `setMatchWinner(rounds, matchId, winnerId)`: the first match with the id
      gets the winner and is completed; its winner fills the slot of the next
      match its parity picks, and a next match whose slots are both truthy is
      marked pending. An unknown id fails. The next match is looked up after
      the first write, so a match that names itself as next is updated
      twice. */
  function SetMatchWinner(rounds: seq<Round>, matchId: string, winnerId: string): (r: Result<seq<Round>, BracketError>)
    ensures r.Failure? <==> FindMatch(rounds, matchId).None?
    ensures r.Failure? ==> r.error == MatchNotFound
    ensures r.Success? ==> SameFrames(rounds, r.value)
  {
    match FindMatch(rounds, matchId)
    case None => Failure(MatchNotFound)
    case Some(p) =>
      var m := At(rounds, p).(winnerId := Some(winnerId), status := Completed);
      var rounds1 := Update(rounds, p, m);
      UpdateSameFrames(rounds, p, m);
      if !IsSet(m.nextMatchId) then Success(rounds1)
      else
        match FindMatch(rounds1, m.nextMatchId.value)
        case None => Success(rounds1)
        case Some(np) =>
          var next := Receive(At(rounds1, np), FeedsSlot1(m), winnerId);
          UpdateSameFrames(rounds1, np, next);
          SameFramesTrans(rounds, rounds1, Update(rounds1, np, next));
          Success(Update(rounds1, np, next))
  }

  /** The fed match after receiving a winner: the slot is filled, and the
      match is marked pending once both slots are truthy. */
  function Receive(m: Match, slot1: bool, winnerId: string): (r: Match)
    ensures Frame(r) == Frame(m) && r.winnerId == m.winnerId
    ensures Slot(r, slot1) == Some(winnerId) && Slot(r, !slot1) == Slot(m, !slot1)
    ensures r.status == if IsSet(r.team1Id) && IsSet(r.team2Id) then Pending else m.status
  {
    var filled := FillSlot(m, slot1, winnerId);
    if IsSet(filled.team1Id) && IsSet(filled.team2Id) then filled.(status := Pending) else filled
  }

  /** One unfolding of a recorded result: the match is written, then the
      match it feeds, found in the bracket as it stands after that write. */
  lemma SetStep(rounds: seq<Round>, matchId: string, winnerId: string, p: Pos)
    requires FindMatch(rounds, matchId) == Some(p)
    ensures var m := At(rounds, p).(winnerId := Some(winnerId), status := Completed);
      var rounds1 := Update(rounds, p, m);
      SetMatchWinner(rounds, matchId, winnerId) == Success(
        match NextPos(rounds, p)
        case None => rounds1
        case Some(np) => Update(rounds1, np, Receive(At(rounds1, np), FeedsSlot1(m), winnerId)))
  {
    var m := At(rounds, p).(winnerId := Some(winnerId), status := Completed);
    UpdateSameFrames(rounds, p, m);
    if IsSet(m.nextMatchId) {
      SameFramesFind(rounds, Update(rounds, p, m), m.nextMatchId.value);
    }
  }

  /** Recording a winner for the match at `p`: the match carries the
      winner, and is completed unless it feeds itself. */
  lemma SetMatchWinnerRecords(rounds: seq<Round>, matchId: string, winnerId: string, p: Pos)
    requires FindMatch(rounds, matchId) == Some(p)
    ensures var r := SetMatchWinner(rounds, matchId, winnerId);
      && r.Success?
      && At(r.value, p).winnerId == Some(winnerId)
      && (NextPos(rounds, p) != Some(p) ==> At(r.value, p).status == Completed)
  {
    SetStep(rounds, matchId, winnerId, p);
  }

  /** Recording a winner changes the match at `p` and the match it feeds,
      and no other. */
  lemma SetMatchWinnerLocal(rounds: seq<Round>, matchId: string, winnerId: string, p: Pos, q: Pos)
    requires FindMatch(rounds, matchId) == Some(p)
    requires ValidPos(rounds, q) && q != p && Some(q) != NextPos(rounds, p)
    ensures SetMatchWinner(rounds, matchId, winnerId).Success?
    ensures At(SetMatchWinner(rounds, matchId, winnerId).value, q) == At(rounds, q)
  {
    SetStep(rounds, matchId, winnerId, p);
    var m := At(rounds, p).(winnerId := Some(winnerId), status := Completed);
    var rounds1 := Update(rounds, p, m);
    match NextPos(rounds, p)
    case None =>
    case Some(np) =>
      WritesElsewhere(rounds, p, m, np, Receive(At(rounds1, np), FeedsSlot1(m), winnerId), q);
  }

  /** Two writes leave every third place alone. */
  lemma WritesElsewhere(rounds: seq<Round>, p: Pos, m: Match, np: Pos, nm: Match, q: Pos)
    requires ValidPos(rounds, p) && ValidPos(rounds, np) && ValidPos(rounds, q)
    requires q != p && q != np
    ensures At(Update(Update(rounds, p, m), np, nm), q) == At(rounds, q)
  {
  }

  /** The match fed by `p` receives the winner in the slot `p`'s parity
      picks, keeps its other slot and its winner, and is pending when both
      slots are truthy and otherwise keeps its status. */
  lemma SetMatchWinnerFeeds(rounds: seq<Round>, matchId: string, winnerId: string, p: Pos, np: Pos)
    requires FindMatch(rounds, matchId) == Some(p) && NextPos(rounds, p) == Some(np)
    ensures var r := SetMatchWinner(rounds, matchId, winnerId);
      var slot1 := FeedsSlot1(At(rounds, p));
      var before := if np == p then At(rounds, p).(winnerId := Some(winnerId), status := Completed) else At(rounds, np);
      var after := At(r.value, np);
      && r.Success?
      && Slot(after, slot1) == Some(winnerId)
      && Slot(after, !slot1) == Slot(before, !slot1)
      && after.winnerId == before.winnerId
      && (IsSet(after.team1Id) && IsSet(after.team2Id) ==> after.status == Pending)
      && (!(IsSet(after.team1Id) && IsSet(after.team2Id)) ==> after.status == before.status)
  {
    SetStep(rounds, matchId, winnerId, p);
    var m := At(rounds, p).(winnerId := Some(winnerId), status := Completed);
    assert At(Update(rounds, p, m), np) == if np == p then m else At(rounds, np);
  }

  // ----- resetting a match ---------------------------------------------------------------

  function Won(m: Match): nat {
    if IsSet(m.winnerId) then 1 else 0
  }

  /** The number of matches in `ms` with a truthy winner. */
  function WonIn(ms: seq<Match>): nat {
    if |ms| == 0 then 0 else Won(ms[0]) + WonIn(ms[1..])
  }

  /** The number of matches of the bracket with a truthy winner. */
  function WonCount(rounds: seq<Round>): nat {
    if |rounds| == 0 then 0 else WonIn(rounds[0].matches) + WonCount(rounds[1..])
  }

  lemma {:induction false} WonInUpdate(ms: seq<Match>, i: nat, m: Match)
    requires i < |ms|
    ensures WonIn(ms[i := m]) + Won(ms[i]) == WonIn(ms) + Won(m)
    decreases i
  {
    if i > 0 {
      WonInUpdate(ms[1..], i - 1, m);
      assert ms[i := m][1..] == ms[1..][i - 1 := m];
    }
  }

  /** Replacing one match changes the count by that match's contribution. */
  lemma {:induction false} WonCountUpdate(rounds: seq<Round>, p: Pos, m: Match)
    requires ValidPos(rounds, p)
    ensures WonCount(Update(rounds, p, m)) + Won(At(rounds, p)) == WonCount(rounds) + Won(m)
    decreases p.round
  {
    var u := Update(rounds, p, m);
    if p.round == 0 {
      WonInUpdate(rounds[0].matches, p.index, m);
      assert u[1..] == rounds[1..];
    } else {
      var p' := Pos(p.round - 1, p.index);
      assert u[1..] == Update(rounds[1..], p', m);
      WonCountUpdate(rounds[1..], p', m);
    }
  }

  /** The reset recursion's measure: matches with a truthy winner, plus one
      when the match to reset has none (or is missing). */
  function ResetMeasure(rounds: seq<Round>, matchId: string): nat {
    var extra := match FindMatch(rounds, matchId)
      case Some(p) => 1 - Won(At(rounds, p))
      case None => 1;
    WonCount(rounds) + extra
  }

  /** Each recursive reset goes to a match that still has a truthy winner, in
      a bracket that lost one: the target's winner if it had one, otherwise
      the extra unit. */
  lemma ResetDecreases(rounds: seq<Round>, matchId: string, p: Pos, np: Pos, rounds2: seq<Round>, nextId: string)
    requires FindMatch(rounds, matchId) == Some(p) && ValidPos(rounds, np)
    requires var m := At(rounds, p).(winnerId := None, status := Pending);
      var rounds1 := Update(rounds, p, m);
      && At(rounds1, np).id == nextId
      && rounds2 == Update(rounds1, np, ClearSlot(At(rounds1, np), FeedsSlot1(m)))
      && IsSet(At(rounds2, np).winnerId)
      && FindMatch(rounds2, nextId) == Some(np)
    ensures ResetMeasure(rounds2, nextId) < ResetMeasure(rounds, matchId)
  {
    var m := At(rounds, p).(winnerId := None, status := Pending);
    var rounds1 := Update(rounds, p, m);
    var nm := ClearSlot(At(rounds1, np), FeedsSlot1(m));
    WonCountUpdate(rounds, p, m);
    WonCountUpdate(rounds1, np, nm);
  }

  /** `resetMatch(rounds, matchId)` with `resetMatchRecursive`: the first match
      with the id loses its winner and becomes pending; the match it feeds
      loses the slot its parity picks and is reset in turn when it has a
      truthy winner, else made pending. An unknown id changes nothing. The
      recursion ends on every input, cycles of next-match ids included, since
      each recursive call clears a truthy winner. */
  function ResetMatch(rounds: seq<Round>, matchId: string): (r: seq<Round>)
    ensures OnlyCleared(rounds, r)
    ensures FindMatch(rounds, matchId).None? ==> r == rounds
    decreases ResetMeasure(rounds, matchId)
  {
    match FindMatch(rounds, matchId)
    case None => rounds
    case Some(p) =>
      var m := At(rounds, p).(winnerId := None, status := Pending);
      var rounds1 := Update(rounds, p, m);
      UpdateOnlyCleared(rounds, p, m);
      if !IsSet(m.nextMatchId) then rounds1
      else
        match FindMatch(rounds1, m.nextMatchId.value)
        case None => rounds1
        case Some(np) =>
          var nm := ClearSlot(At(rounds1, np), FeedsSlot1(m));
          var rounds2 := Update(rounds1, np, nm);
          UpdateOnlyCleared(rounds1, np, nm);
          OnlyClearedTrans(rounds, rounds1, rounds2);
          if IsSet(nm.winnerId) then
            UpdateSameIds(rounds1, np, nm);
            FindMatchSameIds(rounds1, rounds2, nm.id);
            ResetDecreases(rounds, matchId, p, np, rounds2, nm.id);
            var r := ResetMatch(rounds2, nm.id);
            OnlyClearedTrans(rounds, rounds2, r);
            r
          else
            var done := nm.(status := Pending);
            UpdateOnlyCleared(rounds2, np, done);
            OnlyClearedTrans(rounds, rounds2, Update(rounds2, np, done));
            Update(rounds2, np, done)
  }

  /** The target of a reset, written back without a winner and pending. */
  function ClearTarget(rounds: seq<Round>, p: Pos): (r: seq<Round>)
    requires ValidPos(rounds, p)
    ensures OnlyCleared(rounds, r)
  {
    var m := At(rounds, p).(winnerId := None, status := Pending);
    UpdateOnlyCleared(rounds, p, m);
    Update(rounds, p, m)
  }

  /** One level of a reset whose target feeds a match: the target is
      cleared, the fed match loses its slot, and the reset goes on from the
      fed match exactly when it still has a truthy winner. */
  lemma ResetStep(rounds: seq<Round>, matchId: string, p: Pos, np: Pos)
    requires FindMatch(rounds, matchId) == Some(p) && NextPos(rounds, p) == Some(np)
    ensures var m := At(rounds, p).(winnerId := None, status := Pending);
      var rounds1 := ClearTarget(rounds, p);
      var nm := ClearSlot(At(rounds1, np), FeedsSlot1(m));
      var rounds2 := Update(rounds1, np, nm);
      && FindMatch(rounds1, nm.id) == Some(np)
      && ResetMatch(rounds, matchId) ==
        if IsSet(nm.winnerId) then ResetMatch(rounds2, nm.id) else Update(rounds2, np, nm.(status := Pending))
  {
    var m := At(rounds, p).(winnerId := None, status := Pending);
    SameFramesFind(rounds, ClearTarget(rounds, p), m.nextMatchId.value);
  }

  /** A reset whose target feeds no match only clears the target. */
  lemma ResetNoNext(rounds: seq<Round>, matchId: string, p: Pos)
    requires FindMatch(rounds, matchId) == Some(p) && NextPos(rounds, p).None?
    ensures ResetMatch(rounds, matchId) == ClearTarget(rounds, p)
  {
    var m := At(rounds, p).(winnerId := None, status := Pending);
    if IsSet(m.nextMatchId) {
      SameFramesFind(rounds, ClearTarget(rounds, p), m.nextMatchId.value);
    }
  }

  /** After its first write, a reset only clears. */
  lemma ResetAfterFirstWrite(rounds: seq<Round>, matchId: string, p: Pos)
    requires FindMatch(rounds, matchId) == Some(p)
    ensures OnlyCleared(ClearTarget(rounds, p), ResetMatch(rounds, matchId))
  {
    var r := ResetMatch(rounds, matchId);
    var rounds1 := ClearTarget(rounds, p);
    match NextPos(rounds, p)
    case None =>
      ResetNoNext(rounds, matchId, p);
      OnlyClearedRefl(rounds1);
    case Some(np) =>
      ResetStep(rounds, matchId, p, np);
      var m := At(rounds, p).(winnerId := None, status := Pending);
      var nm := ClearSlot(At(rounds1, np), FeedsSlot1(m));
      var rounds2 := Update(rounds1, np, nm);
      UpdateOnlyCleared(rounds1, np, nm);
      if !IsSet(nm.winnerId) {
        UpdateOnlyCleared(rounds2, np, nm.(status := Pending));
      }
      OnlyClearedTrans(rounds1, rounds2, r);
  }

  /** Resetting a match leaves it without a winner and pending. */
  lemma ResetMatchClearsTarget(rounds: seq<Round>, matchId: string, p: Pos)
    requires FindMatch(rounds, matchId) == Some(p)
    ensures var r := ResetMatch(rounds, matchId);
      ValidPos(r, p) && At(r, p).winnerId.None? && At(r, p).status == Pending
  {
    ResetAfterFirstWrite(rounds, matchId, p);
    assert ClearedFrom(At(ClearTarget(rounds, p), p), At(ResetMatch(rounds, matchId), p));
  }

  /** The match a reset match feeds loses the slot the reset match's parity
      picks, keeps no truthy winner, and is pending. */
  lemma ResetMatchClearsNext(rounds: seq<Round>, matchId: string, p: Pos, np: Pos)
    requires FindMatch(rounds, matchId) == Some(p) && NextPos(rounds, p) == Some(np)
    ensures var r := ResetMatch(rounds, matchId);
      && ValidPos(r, np)
      && Slot(At(r, np), FeedsSlot1(At(rounds, p))) == None
      && !IsSet(At(r, np).winnerId)
      && At(r, np).status == Pending
  {
    ResetStep(rounds, matchId, p, np);
    var m := At(rounds, p).(winnerId := None, status := Pending);
    var rounds1 := ClearTarget(rounds, p);
    var nm := ClearSlot(At(rounds1, np), FeedsSlot1(m));
    var rounds2 := Update(rounds1, np, nm);
    if IsSet(nm.winnerId) {
      ResetFedMatch(rounds1, np, nm);
    }
  }

  /** The recursive half of a reset: the fed match, its slot already
      cleared, is itself reset. */
  lemma ResetFedMatch(rounds1: seq<Round>, np: Pos, nm: Match)
    requires ValidPos(rounds1, np) && nm.id == At(rounds1, np).id
    requires FindMatch(rounds1, nm.id) == Some(np)
    ensures var r := ResetMatch(Update(rounds1, np, nm), nm.id);
      && ValidPos(r, np)
      && ClearedFrom(nm.(winnerId := None, status := Pending), At(r, np))
  {
    var rounds2 := Update(rounds1, np, nm);
    UpdateSameIds(rounds1, np, nm);
    FindMatchSameIds(rounds1, rounds2, nm.id);
    ResetAfterFirstWrite(rounds2, nm.id, np);
    assert ClearedFrom(At(ClearTarget(rounds2, np), np), At(ResetMatch(rounds2, nm.id), np));
  }

  /** Resetting twice is resetting once. */
  lemma ResetMatchIdempotent(rounds: seq<Round>, matchId: string)
    ensures ResetMatch(ResetMatch(rounds, matchId), matchId) == ResetMatch(rounds, matchId)
  {
    var r := ResetMatch(rounds, matchId);
    SameFramesFind(rounds, r, matchId);
    match FindMatch(rounds, matchId)
    case None =>
    case Some(p) =>
      ResetMatchClearsTarget(rounds, matchId, p);
      SameFramesNextPos(rounds, r, p);
      ClearTargetOfCleared(r, p);
      match NextPos(r, p)
      case None =>
        ResetNoNext(r, matchId, p);
      case Some(np) =>
        ResetMatchClearsNext(rounds, matchId, p, np);
        ResetStep(r, matchId, p, np);
        var nm := At(r, np);
        assert ClearSlot(nm, FeedsSlot1(At(r, p))) == nm;
        assert nm.(status := Pending) == nm;
        UpdateAtSelf(r, np);
  }

  /** Clearing a match that has no winner and is pending changes nothing. */
  lemma ClearTargetOfCleared(rounds: seq<Round>, p: Pos)
    requires ValidPos(rounds, p) && At(rounds, p).winnerId.None? && At(rounds, p).status == Pending
    ensures ClearTarget(rounds, p) == rounds
  {
    assert At(rounds, p).(winnerId := None, status := Pending) == At(rounds, p);
    UpdateAtSelf(rounds, p);
  }

  /** The next match is ready to receive the winner of the match at `p`: a
      different match, with the slot `p` feeds empty, no truthy winner, and
      pending. A match whose next-match id is its own id is left aside: there
      recording writes the winner and the fed slot into that one match, and
      the round trip would need a proof of its own. No generated bracket has
      such a match (RouteInDesign). */
  predicate NextReady(rounds: seq<Round>, p: Pos)
    requires ValidPos(rounds, p)
  {
    match NextPos(rounds, p)
    case None => true
    case Some(np) =>
      && np != p
      && Slot(At(rounds, np), FeedsSlot1(At(rounds, p))) == None
      && !IsSet(At(rounds, np).winnerId)
      && At(rounds, np).status == Pending
  }

  /** Recording a winner for a match whose next match is ready: the match is
      completed with the winner, and the winner fills the next match's
      slot. */
  lemma SetMatchWinnerReady(rounds: seq<Round>, matchId: string, winnerId: string, p: Pos)
    requires FindMatch(rounds, matchId) == Some(p) && NextReady(rounds, p)
    ensures var m1 := At(rounds, p).(winnerId := Some(winnerId), status := Completed);
      SetMatchWinner(rounds, matchId, winnerId) == Success(
        match NextPos(rounds, p)
        case None => Update(rounds, p, m1)
        case Some(np) => Update(Update(rounds, p, m1), np, FillSlot(At(rounds, np), FeedsSlot1(m1), winnerId)))
  {
    SetStep(rounds, matchId, winnerId, p);
  }

  /** Resetting a match whose next match, once its slot is cleared, has no
      truthy winner: the match is cleared and the next one made pending. */
  lemma ResetMatchShallow(rounds: seq<Round>, matchId: string, p: Pos)
    requires FindMatch(rounds, matchId) == Some(p)
    requires NextPos(rounds, p).Some? ==> !IsSet(At(rounds, NextPos(rounds, p).value).winnerId)
    requires NextPos(rounds, p).Some? ==> NextPos(rounds, p).value != p
    ensures var m := At(rounds, p).(winnerId := None, status := Pending);
      ResetMatch(rounds, matchId) ==
        match NextPos(rounds, p)
        case None => Update(rounds, p, m)
        case Some(np) =>
          var nm := ClearSlot(At(rounds, np), FeedsSlot1(m));
          Update(Update(Update(rounds, p, m), np, nm), np, nm.(status := Pending))
  {
    var m := At(rounds, p).(winnerId := None, status := Pending);
    var rounds1 := ClearTarget(rounds, p);
    if IsSet(m.nextMatchId) {
      SameFramesFind(rounds, rounds1, m.nextMatchId.value);
    }
  }

  /** Brackets with the same frames route every winner the same way. */
  lemma SameFramesNextPos(a: seq<Round>, b: seq<Round>, p: Pos)
    requires SameFrames(a, b) && ValidPos(a, p)
    ensures ValidPos(b, p) && NextPos(a, p) == NextPos(b, p)
    ensures FeedsSlot1(At(a, p)) == FeedsSlot1(At(b, p))
  {
    assert Frame(At(a, p)) == Frame(At(b, p));
    var next := At(a, p).nextMatchId;
    if IsSet(next) {
      SameFramesFind(a, b, next.value);
    }
  }

  /** The writes of the round trip cancel out. */
  lemma RoundTripWrites(rounds: seq<Round>, p: Pos, np: Pos, m1: Match, filled: Match, m2: Match)
    requires ValidPos(rounds, p) && ValidPos(rounds, np) && p != np
    requires At(rounds, np).status == Pending
    ensures var nm := At(rounds, np);
      Update(Update(Update(Update(Update(rounds, p, m1), np, filled), p, m2), np, nm), np, nm.(status := Pending))
        == Update(rounds, p, m2)
  {
    var nm := At(rounds, np);
    var r := Update(Update(Update(Update(Update(rounds, p, m1), np, filled), p, m2), np, nm), np, nm.(status := Pending));
    var want := Update(rounds, p, m2);
    assert nm.(status := Pending) == nm;
    forall q | ValidPos(r, q)
      ensures At(r, q) == At(want, q)
    {
    }
    RoundsExt(r, want);
  }

  /** Recording a winner and then resetting the same match gives back the
      bracket with that match's result cleared: the match it feeds has its
      slot, winner and status back, and every other match is as it was. */
  lemma SetThenReset(rounds: seq<Round>, matchId: string, winnerId: string, p: Pos)
    requires FindMatch(rounds, matchId) == Some(p) && NextReady(rounds, p)
    ensures SetMatchWinner(rounds, matchId, winnerId).Success?
    ensures ResetMatch(SetMatchWinner(rounds, matchId, winnerId).value, matchId)
      == Update(rounds, p, At(rounds, p).(winnerId := None, status := Pending))
  {
    SetMatchWinnerReady(rounds, matchId, winnerId, p);
    var s := SetMatchWinner(rounds, matchId, winnerId).value;
    SameFramesFind(rounds, s, matchId);
    SameFramesNextPos(rounds, s, p);
    var m1 := At(rounds, p).(winnerId := Some(winnerId), status := Completed);
    var m2 := At(rounds, p).(winnerId := None, status := Pending);
    match NextPos(rounds, p)
    case None =>
      assert s == Update(rounds, p, m1);
      ResetMatchShallow(s, matchId, p);
      assert At(s, p).(winnerId := None, status := Pending) == m2;
      UpdateTwice(rounds, p, m1, m2);
    case Some(np) =>
      ResetFedAfterSet(rounds, s, matchId, p, np, m1, m2, winnerId);
  }

  /** The reset half of the round trip for a match that feeds another. */
  lemma ResetFedAfterSet(rounds: seq<Round>, s: seq<Round>, matchId: string, p: Pos, np: Pos,
                         m1: Match, m2: Match, winnerId: string)
    requires ValidPos(rounds, p) && ValidPos(rounds, np) && p != np
    requires m1 == At(rounds, p).(winnerId := Some(winnerId), status := Completed)
    requires m2 == At(rounds, p).(winnerId := None, status := Pending)
    requires Slot(At(rounds, np), FeedsSlot1(m1)) == None
    requires !IsSet(At(rounds, np).winnerId) && At(rounds, np).status == Pending
    requires s == Update(Update(rounds, p, m1), np, FillSlot(At(rounds, np), FeedsSlot1(m1), winnerId))
    requires FindMatch(s, matchId) == Some(p) && NextPos(s, p) == Some(np)
    ensures ResetMatch(s, matchId) == Update(rounds, p, m2)
  {
    var filled := FillSlot(At(rounds, np), FeedsSlot1(m1), winnerId);
    assert At(s, p) == m1 && At(s, np) == filled;
    ResetMatchShallow(s, matchId, p);
    assert ClearSlot(filled, FeedsSlot1(m2)) == At(rounds, np);
    RoundTripWrites(rounds, p, np, m1, filled, m2);
  }

  /** When the match at `p` was pending without a winner, the round trip
      gives back the bracket itself. */
  lemma SetThenResetRestores(rounds: seq<Round>, matchId: string, winnerId: string, p: Pos)
    requires FindMatch(rounds, matchId) == Some(p) && NextReady(rounds, p)
    requires At(rounds, p).winnerId.None? && At(rounds, p).status == Pending
    ensures SetMatchWinner(rounds, matchId, winnerId).Success?
    ensures ResetMatch(SetMatchWinner(rounds, matchId, winnerId).value, matchId) == rounds
  {
    SetThenReset(rounds, matchId, winnerId, p);
    assert At(rounds, p).(winnerId := None, status := Pending) == At(rounds, p);
    UpdateAtSelf(rounds, p);
  }

  // ----- routing in a generated bracket ------------------------------------------------

  /** Match number `i + 1` is odd exactly when index `i` is even. */
  lemma NextNumberParity(i: nat)
    ensures (i + 1) % 2 != 0 <==> i % 2 == 0
  {
  }

  /** In a designed bracket the winner of match `i` of round `k + 1` goes to
      match `floor(i / 2)` of the next round, into the first slot when `i` is
      even, and the final's winner goes nowhere. */
  lemma RouteInDesign(teams: seq<BracketTeam>, rounds: seq<Round>, k: nat, i: nat)
    requires Designs(teams, rounds) && ValidPos(rounds, Pos(k, i))
    ensures NextPos(rounds, Pos(k, i)) == if k + 1 < |rounds| then Some(Pos(k + 1, i / 2)) else None
    ensures FeedsSlot1(At(rounds, Pos(k, i))) <==> i % 2 == 0
  {
    DesignedFields(teams, rounds, Pos(k, i));
    DesignWiring(teams, rounds, k, i);
    NextNumberParity(i);
    if k + 1 < |rounds| {
      MatchIdNonEmpty(k + 2, i / 2 + 1);
      DesignFinds(teams, rounds, Pos(k + 1, i / 2));
    }
  }

  /** The same routing holds in every bracket with the designed frames, so
      after any sequence of results and resets. */
  lemma WinnerRoute(teams: seq<BracketTeam>, designed: seq<Round>, rounds: seq<Round>, k: nat, i: nat)
    requires Designs(teams, designed) && SameFrames(designed, rounds) && ValidPos(designed, Pos(k, i))
    ensures NextPos(rounds, Pos(k, i)) == if k + 1 < |rounds| then Some(Pos(k + 1, i / 2)) else None
    ensures FeedsSlot1(At(rounds, Pos(k, i))) <==> i % 2 == 0
  {
    RouteInDesign(teams, designed, k, i);
    SameFramesNextPos(designed, rounds, Pos(k, i));
  }

  /** What an organiser does to a bracket. */
  datatype Action = SetWinner(matchId: string, winnerId: string) | Reset(matchId: string)

  /** The actions applied in order; the first failing one stops the run. */
  function Play(rounds: seq<Round>, actions: seq<Action>): (r: Result<seq<Round>, BracketError>)
    ensures r.Success? ==> SameFrames(rounds, r.value)
    ensures r.Failure? ==> r.error == MatchNotFound
    decreases |actions|
  {
    if |actions| == 0 then
      assert SameFrames(rounds, rounds) by {
        forall q | ValidPos(rounds, q) ensures Frame(At(rounds, q)) == Frame(At(rounds, q)) { }
      }
      Success(rounds)
    else
      var step := match actions[0]
        case SetWinner(id, w) => SetMatchWinner(rounds, id, w)
        case Reset(id) => Success(ResetMatch(rounds, id));
      if step.Failure? then step
      else
        var rest := Play(step.value, actions[1..]);
        if rest.Success? then SameFramesTrans(rounds, step.value, rest.value); rest else rest
  }
}
