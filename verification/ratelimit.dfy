/** The login rate limiter of middleware.ts: a per-IP fixed-window counter kept
    in an in-memory map, swept lazily once it grows past a threshold, and the
    rule that picks the client's address out of the proxy headers. The clock
    is a parameter and the store is a value passed in and returned. */
module RateLimit {
  import opened Wrappers
  import opened Text

  /** The window length in milliseconds. */
  const Window: int := 60000
  /** Calls admitted per IP and window. */
  const MaxRequests: nat := 5
  /** The store is swept only when it holds more entries than this. */
  const CleanupThreshold: nat := 1000

  datatype Record = Record(count: nat, resetTime: int)

  type Store = map<string, Record>

  /** A record whose window has passed: the source compares `now > resetTime`
      strictly, so the reset instant itself still belongs to the window. */
  predicate Expired(r: Record, now: int) {
    now > r.resetTime
  }

  /** Every stored counter lies in 1..MaxRequests. */
  ghost predicate ValidStore(store: Store) {
    forall k :: k in store ==> 1 <= store[k].count <= MaxRequests
  }

  /** The lazy sweep: above the threshold every expired record is dropped,
      and nothing else is touched. */
  function Cleanup(store: Store, now: int): (r: Store)
    ensures |store| <= CleanupThreshold ==> r == store
    ensures forall k :: k in r ==> k in store && r[k] == store[k]
    ensures forall k :: k in store && !Expired(store[k], now) ==> k in r
    ensures |store| > CleanupThreshold ==> forall k :: k in r ==> !Expired(r[k], now)
  {
    if |store| > CleanupThreshold then
      map k | k in store && !Expired(store[k], now) :: store[k]
    else store
  }

  /** The answer of one check and the store after it. */
  datatype Verdict = Verdict(limited: bool, store: Store)

  /** The decision for one call on a store as it stands, without the sweep:
      a missing or expired record opens a new window, a full window refuses,
      and otherwise the counter goes up. */
  function Step(store: Store, ip: string, now: int): (v: Verdict)
    ensures v.limited <==> ip in store && !Expired(store[ip], now) && store[ip].count >= MaxRequests
    ensures v.limited ==> v.store == store
    ensures !v.limited ==> ip in v.store && v.store == store[ip := v.store[ip]]
    ensures !v.limited && (ip !in store || Expired(store[ip], now)) ==>
      v.store[ip] == Record(1, now + Window)
    ensures !v.limited && ip in store && !Expired(store[ip], now) ==>
      v.store[ip] == store[ip].(count := store[ip].count + 1)
  {
    if ip !in store then
      Verdict(false, store[ip := Record(1, now + Window)])
    else
      var record := store[ip];
      if Expired(record, now) then
        Verdict(false, store[ip := Record(1, now + Window)])
      else if record.count >= MaxRequests then
        Verdict(true, store)
      else
        Verdict(false, store[ip := record.(count := record.count + 1)])
  }

  /** `isRateLimited(ip)` at time `now`: the sweep, then the decision. The
      call is refused exactly when the caller's record is live and full; an
      admitted caller's record restarts or counts one more; no other record
      changes, and only expired ones may go. */
  function IsRateLimited(store: Store, ip: string, now: int): (v: Verdict)
    ensures v.limited <==> ip in store && !Expired(store[ip], now) && store[ip].count >= MaxRequests
    ensures !v.limited && (ip !in store || Expired(store[ip], now)) ==>
      ip in v.store && v.store[ip] == Record(1, now + Window)
    ensures !v.limited && ip in store && !Expired(store[ip], now) ==>
      ip in v.store && v.store[ip] == store[ip].(count := store[ip].count + 1)
    ensures forall k :: k in v.store && k != ip ==> k in store && v.store[k] == store[k]
    ensures forall k :: k in store && !Expired(store[k], now) && k != ip ==> k in v.store
  {
    Step(Cleanup(store, now), ip, now)
  }

  /** The sweep is invisible to callers: the verdict and the caller's record
      are those the store would give without it, and every record still in
      its window is kept as it was. */
  lemma CleanupUnobservable(store: Store, ip: string, now: int)
    ensures IsRateLimited(store, ip, now).limited == Step(store, ip, now).limited
    ensures !Step(store, ip, now).limited ==>
      IsRateLimited(store, ip, now).store[ip] == Step(store, ip, now).store[ip]
    ensures forall k :: k in store && !Expired(store[k], now) ==>
      k in IsRateLimited(store, ip, now).store && k in Step(store, ip, now).store
      && IsRateLimited(store, ip, now).store[k] == Step(store, ip, now).store[k]
  {
  }

  /** Counters stay between 1 and MaxRequests. */
  lemma IsRateLimitedKeepsValid(store: Store, ip: string, now: int)
    requires ValidStore(store)
    ensures ValidStore(IsRateLimited(store, ip, now).store)
  {
  }

  /** A refused call changes nothing but what the sweep removes. */
  lemma LimitedOnlySweeps(store: Store, ip: string, now: int)
    requires IsRateLimited(store, ip, now).limited
    ensures IsRateLimited(store, ip, now).store == Cleanup(store, now)
    ensures ip in store && store[ip].count >= MaxRequests && !Expired(store[ip], now)
  {
  }

  // ----- many calls ---------------------------------------------------------

  /** One incoming request, from `ip` at time `now`. */
  datatype Call = Call(ip: string, now: int)

  /** The store after a sequence of calls. */
  function Run(store: Store, calls: seq<Call>): Store
    decreases |calls|
  {
    if |calls| == 0 then store
    else Run(IsRateLimited(store, calls[0].ip, calls[0].now).store, calls[1..])
  }

  /** How many calls from `ip` the limiter lets through. */
  function Admitted(store: Store, calls: seq<Call>, ip: string): nat
    decreases |calls|
  {
    if |calls| == 0 then 0
    else
      var v := IsRateLimited(store, calls[0].ip, calls[0].now);
      (if calls[0].ip == ip && !v.limited then 1 else 0) + Admitted(v.store, calls[1..], ip)
  }

  /** A sequence of calls keeps every counter between 1 and MaxRequests. */
  lemma {:induction false} RunKeepsValid(store: Store, calls: seq<Call>)
    requires ValidStore(store)
    ensures ValidStore(Run(store, calls))
    decreases |calls|
  {
    if |calls| > 0 {
      IsRateLimitedKeepsValid(store, calls[0].ip, calls[0].now);
      RunKeepsValid(IsRateLimited(store, calls[0].ip, calls[0].now).store, calls[1..]);
    }
  }

  /** One call within `ip`'s live window: other callers leave `ip`'s record
      alone, and a call from `ip` either is refused or adds one to it. */
  lemma LiveRecordStep(store: Store, c: Call, ip: string)
    requires ip in store && c.now <= store[ip].resetTime
    ensures var v := IsRateLimited(store, c.ip, c.now);
      && ip in v.store
      && v.store[ip].resetTime == store[ip].resetTime
      && (c.ip != ip ==> v.store[ip] == store[ip])
      && (c.ip == ip && v.limited ==> v.store[ip] == store[ip] && store[ip].count >= MaxRequests)
      && (c.ip == ip && !v.limited ==> v.store[ip].count == store[ip].count + 1)
  {
  }

  /** While `ip`'s window lasts, whoever else calls, it is let through at most
      as many more times as its counter has room for. */
  lemma {:induction false} LiveWindowBound(store: Store, calls: seq<Call>, ip: string)
    requires ip in store && store[ip].count <= MaxRequests
    requires forall i :: 0 <= i < |calls| ==> calls[i].now <= store[ip].resetTime
    ensures Admitted(store, calls, ip) <= MaxRequests - store[ip].count
    decreases |calls|
  {
    if |calls| > 0 {
      var c := calls[0];
      var v := IsRateLimited(store, c.ip, c.now);
      LiveRecordStep(store, c, ip);
      assert forall i :: 0 <= i < |calls[1..]| ==> calls[1..][i].now <= v.store[ip].resetTime by {
        forall i | 0 <= i < |calls[1..]|
          ensures calls[1..][i].now <= v.store[ip].resetTime
        {
          assert calls[1..][i] == calls[i + 1];
        }
      }
      LiveWindowBound(v.store, calls[1..], ip);
    }
  }

  /** A call that opens `ip`'s window at time `t`, followed by any calls up
      to the window's end, lets `ip` through at most MaxRequests times. */
  lemma WindowBound(store: Store, t: int, rest: seq<Call>, ip: string)
    requires ip !in store || Expired(store[ip], t)
    requires forall i :: 0 <= i < |rest| ==> rest[i].now <= t + Window
    ensures Admitted(store, [Call(ip, t)] + rest, ip) <= MaxRequests
  {
    var calls := [Call(ip, t)] + rest;
    var v := IsRateLimited(store, ip, t);
    assert v.store[ip] == Record(1, t + Window);
    assert calls[1..] == rest;
    LiveWindowBound(v.store, rest, ip);
  }

  /** Once the window has passed, the next call from `ip` is let through
      again, whatever its counter was. */
  lemma ExpiredAdmits(store: Store, ip: string, now: int)
    requires ip in store && Expired(store[ip], now)
    ensures !IsRateLimited(store, ip, now).limited
    ensures IsRateLimited(store, ip, now).store[ip] == Record(1, now + Window)
  {
  }

  /** `n` calls from `ip` at one instant of its live window all pass while
      the counter has room for them, and each adds one to it. */
  lemma {:induction false} FillWindow(store: Store, ip: string, t: int, n: nat)
    requires ip in store && !Expired(store[ip], t) && store[ip].count + n <= MaxRequests
    ensures Admitted(store, seq(n, _ => Call(ip, t)), ip) == n
    ensures var after := Run(store, seq(n, _ => Call(ip, t)));
      ip in after && after[ip] == store[ip].(count := store[ip].count + n)
    decreases n
  {
    if n > 0 {
      var calls := seq(n, _ => Call(ip, t));
      var v := IsRateLimited(store, ip, t);
      assert calls[0] == Call(ip, t);
      assert calls[1..] == seq(n - 1, _ => Call(ip, t));
      FillWindow(v.store, ip, t, n - 1);
    }
  }

  /** The bound is tight: from an empty store MaxRequests calls at one instant
      all pass and the next one is refused. */
  lemma SixthCallRefused(ip: string, t: int)
    ensures Admitted(map[], seq(MaxRequests, _ => Call(ip, t)), ip) == MaxRequests
    ensures IsRateLimited(Run(map[], seq(MaxRequests, _ => Call(ip, t))), ip, t).limited
  {
    var calls := seq(MaxRequests, _ => Call(ip, t));
    var s1 := IsRateLimited(map[], ip, t).store;
    assert s1[ip] == Record(1, t + Window);
    assert calls[0] == Call(ip, t);
    assert calls[1..] == seq(MaxRequests - 1, _ => Call(ip, t));
    FillWindow(s1, ip, t, MaxRequests - 1);
  }

  // ----- the client address and the middleware -------------------------------

  /** `getClientIP`: the first comma-separated entry of `x-forwarded-for`,
      trimmed, when that header is truthy; else `x-real-ip` when truthy; else
      `'unknown'`. */
  function GetClientIP(forwarded: Option<string>, realIp: Option<string>): (r: string)
    ensures IsSet(forwarded) ==> exists i :: FirstEntryAt(forwarded.value, i, r)
    ensures IsSet(forwarded) ==> TrimmedEnds(r)
    ensures !IsSet(forwarded) && IsSet(realIp) ==> r == realIp.value
    ensures !IsSet(forwarded) && !IsSet(realIp) ==> r == "unknown"
  {
    if IsSet(forwarded) then
      TrimFirstField(forwarded.value);
      Trim(FirstField(forwarded.value, ','))
    else if IsSet(realIp) then realIp.value
    else "unknown"
  }

  /** `r` is the first entry of the header `s`, found at index `i`. Before
      it there is only whitespace. There is no comma up to its end. After it,
      up to the first comma or the end of `s`, there is only whitespace. */
  predicate FirstEntryAt(s: string, i: nat, r: string) {
    && i + |r| <= |s|
    && r == s[i..i + |r|]
    && (forall j :: 0 <= j < i ==> IsJsWhitespace(s[j]))
    && (forall j :: 0 <= j < i + |r| ==> s[j] != ',')
    && (forall j :: i + |r| <= j < |s| && CommaFreeThrough(s, j) ==> IsJsWhitespace(s[j]))
  }

  /** No comma in `s[0..j]`, both ends included. */
  predicate CommaFreeThrough(s: string, j: nat)
    requires j < |s|
  {
    forall k :: 0 <= k <= j ==> s[k] != ','
  }

  /** Neither end of `r` is whitespace. */
  predicate TrimmedEnds(r: string) {
    |r| > 0 ==> !IsJsWhitespace(r[0]) && !IsJsWhitespace(r[|r| - 1])
  }

  /** The trimmed first field is the first entry of the header. */
  lemma TrimFirstField(s: string)
    ensures FirstEntryAt(s, TrimStartIndex(FirstField(s, ','), 0), Trim(FirstField(s, ',')))
  {
    var first := FirstField(s, ',');
    TrimSlice(first);
    assert forall j :: 0 <= j < |first| ==> s[j] == first[j] && first[j] != ',';
    EntryOfPrefix(s, first, TrimStartIndex(first, 0), Trim(first));
  }

  /** Trimming the comma-free prefix of `s` that ends at its first comma, or
      at its end, gives the first entry of `s`. */
  lemma EntryOfPrefix(s: string, first: string, i: nat, r: string)
    requires |first| <= |s|
    requires forall j :: 0 <= j < |first| ==> s[j] == first[j] && first[j] != ','
    requires |first| == |s| || s[|first|] == ','
    requires TrimmedAt(first, i, r)
    ensures FirstEntryAt(s, i, r)
  {
    assert r == s[i..i + |r|];
    forall j | i + |r| <= j < |s| && CommaFreeThrough(s, j)
      ensures IsJsWhitespace(s[j])
    {
      assert j < |first| by {
        if |first| < |s| {
          assert s[|first|] == ',';
        }
      }
      assert s[j] == first[j];
    }
  }

  /** At most one string with trimmed ends is the first entry of a header: the
      contract of `GetClientIP` fixes its result. */
  lemma FirstEntryUnique(s: string, i1: nat, r1: string, i2: nat, r2: string)
    requires FirstEntryAt(s, i1, r1) && TrimmedEnds(r1)
    requires FirstEntryAt(s, i2, r2) && TrimmedEnds(r2)
    ensures r1 == r2
  {
    if |r1| > 0 {
      assert s[i1] == r1[0] && CommaFreeThrough(s, i1);
    }
    if |r2| > 0 {
      assert s[i2] == r2[0] && CommaFreeThrough(s, i2);
    }
    if |r1| > 0 && |r2| > 0 {
      var e1, e2 := i1 + |r1| - 1, i2 + |r2| - 1;
      assert s[e1] == r1[|r1| - 1] && CommaFreeThrough(s, e1);
      assert s[e2] == r2[|r2| - 1] && CommaFreeThrough(s, e2);
    }
  }

  /** Whatever meets the forwarded-header part of the contract of
      `GetClientIP` is `forwarded.split(',')[0].trim()`. */
  lemma ForwardedIsTrimmedFirstField(s: string, i: nat, r: string)
    requires FirstEntryAt(s, i, r) && TrimmedEnds(r)
    ensures r == Trim(FirstField(s, ','))
  {
    TrimFirstField(s);
    FirstEntryUnique(s, i, r, TrimStartIndex(FirstField(s, ','), 0), Trim(FirstField(s, ',')));
  }

  /** A single forwarded address is the client, trimmed. */
  lemma ForwardedSingleEntry(a: string, realIp: Option<string>)
    requires a != "" && ',' !in a
    ensures GetClientIP(Some(a), realIp) == Trim(a)
  {
    assert forall k :: 0 <= k < |a| ==> a[k] != ',';
    assert FirstField(a, ',') == a;
  }

  /** With a proxy chain `a, b`, the client is `a` trimmed, whatever follows. */
  lemma ForwardedFirstEntry(a: string, b: string, realIp: Option<string>)
    requires ',' !in a
    ensures GetClientIP(Some(a + [','] + b), realIp) == Trim(a)
  {
    var s := a + [','] + b;
    assert s[|a|] == ',';
    FirstFieldPrefix(s, a);
  }

  /** The first field of `s` is the comma-free prefix ending just before a
      comma. */
  lemma {:induction false} FirstFieldPrefix(s: string, a: string)
    requires |a| < |s| && s[..|a|] == a && ',' !in a && s[|a|] == ','
    ensures FirstField(s, ',') == a
    decreases |a|
  {
    if |a| > 0 {
      assert s[0] == a[0];
      assert s[1..][..|a| - 1] == a[1..];
      FirstFieldPrefix(s[1..], a[1..]);
    }
  }

  /** Without a forwarded header the address is never empty. */
  lemma NoForwardedNonEmpty(realIp: Option<string>)
    ensures GetClientIP(None, realIp) != ""
  {
    assert "unknown"[0] == 'u';
  }

  /** What the middleware answers. */
  datatype Response = TooManyAttempts | Next

  /** HTTP status of the refusal. */
  const TooManyStatus: nat := 429

  predicate IsLoginPath(pathname: string) {
    pathname == "/api/admin/login" || pathname == "/api/admin/change-password"
  }

  /** `middleware(request)`: POSTs to the two login paths are counted against
      the client's address; everything else passes without touching the
      store. */
  function Middleware(pathname: string, httpMethod: string, forwarded: Option<string>,
                      realIp: Option<string>, store: Store, now: int): (r: (Response, Store))
    ensures r.0 == TooManyAttempts ==> IsLoginPath(pathname) && httpMethod == "POST"
    ensures !(IsLoginPath(pathname) && httpMethod == "POST") ==> r == (Next, store)
    ensures IsLoginPath(pathname) && httpMethod == "POST" ==>
      var ip := GetClientIP(forwarded, realIp);
      && (r.0 == TooManyAttempts <==> ip in store && !Expired(store[ip], now) && store[ip].count >= MaxRequests)
      && (r.0 == Next ==>
            && ip in r.1
            && r.1[ip] == (if ip in store && !Expired(store[ip], now)
                           then store[ip].(count := store[ip].count + 1)
                           else Record(1, now + Window)))
      && (r.0 == TooManyAttempts ==> ip in r.1 && r.1[ip] == store[ip])
      && (forall k :: k in r.1 && k != ip ==> k in store && r.1[k] == store[k])
      && (forall k :: k in store && !Expired(store[k], now) && k != ip ==> k in r.1)
  {
    if IsLoginPath(pathname) && httpMethod == "POST" then
      var v := IsRateLimited(store, GetClientIP(forwarded, realIp), now);
      (if v.limited then TooManyAttempts else Next, v.store)
    else (Next, store)
  }

  /** A counted request is refused exactly when its client's window is full. */
  lemma MiddlewareRefusesFullWindow(pathname: string, forwarded: Option<string>,
                                    realIp: Option<string>, store: Store, now: int)
    requires IsLoginPath(pathname)
    ensures var ip := GetClientIP(forwarded, realIp);
      Middleware(pathname, "POST", forwarded, realIp, store, now).0 == TooManyAttempts
      <==> ip in store && !Expired(store[ip], now) && store[ip].count >= MaxRequests
  {
    CleanupUnobservable(store, GetClientIP(forwarded, realIp), now);
  }

  /** The store after `n` identical requests at time `now`, starting from
      `store`. */
  function Repeat(pathname: string, httpMethod: string, forwarded: Option<string>,
                  realIp: Option<string>, store: Store, now: int, n: nat): Store
    decreases n
  {
    if n == 0 then store
    else Middleware(pathname, httpMethod, forwarded, realIp,
                    Repeat(pathname, httpMethod, forwarded, realIp, store, now, n - 1), now).1
  }

  /** From an empty store, the first `n <= 5` login POSTs of one client within
      a window are admitted and counted one by one. */
  lemma {:induction false} RepeatCounts(pathname: string, forwarded: Option<string>,
                                        realIp: Option<string>, now: int, n: nat)
    requires IsLoginPath(pathname) && 1 <= n <= MaxRequests
    ensures var ip := GetClientIP(forwarded, realIp);
      var s := Repeat(pathname, "POST", forwarded, realIp, map[], now, n);
      ip in s && s[ip] == Record(n, now + Window)
    decreases n
  {
    if n > 1 {
      RepeatCounts(pathname, forwarded, realIp, now, n - 1);
    }
  }

  /** The middleware admits the first five login attempts of a client within a
      window and refuses the sixth. */
  lemma MiddlewareSixthAttemptRefused(pathname: string, forwarded: Option<string>,
                                      realIp: Option<string>, now: int)
    requires IsLoginPath(pathname)
    ensures forall n :: 0 <= n < MaxRequests ==>
      Middleware(pathname, "POST", forwarded, realIp,
                 Repeat(pathname, "POST", forwarded, realIp, map[], now, n), now).0 == Next
    ensures Middleware(pathname, "POST", forwarded, realIp,
                       Repeat(pathname, "POST", forwarded, realIp, map[], now, MaxRequests), now).0
            == TooManyAttempts
  {
    forall n | 0 <= n < MaxRequests
      ensures Middleware(pathname, "POST", forwarded, realIp,
                         Repeat(pathname, "POST", forwarded, realIp, map[], now, n), now).0 == Next
    {
      if n > 0 {
        RepeatCounts(pathname, forwarded, realIp, now, n);
      }
    }
    RepeatCounts(pathname, forwarded, realIp, now, MaxRequests);
  }
}
