/** The per-IP token bucket of `dos.rs`, over real-valued seconds: what its pruned
    table promises about the whole history of requests. */
module DosLimiter {
  import opened Prelude

  type Ip = string

  const MAX_TRACKED := 100_000

  datatype Config = Config(rate: nat, burst: nat, blacklistSecs: nat, maxViolations: nat, cleanupSecs: nat)

  datatype IpState = IpState(tokens: real, lastRefill: real, violations: nat, blacklistedUntil: Option<real>,
                             lastSeen: real)

  datatype Verdict = Allowed | RateLimited(violations: nat) | Blacklisted | Whitelisted

  type Table = map<Ip, IpState>

  function MinR(a: real, b: real): real { if a < b then a else b }

  function NewState(cfg: Config, now: real): IpState { IpState(cfg.burst as real, now, 0, None, now) }

  /** Tokens a stretch of time is worth. */
  function Earned(cfg: Config, elapsed: real): real { elapsed * cfg.rate as real }

  /** Tokens after the time since the last refill, at most the burst. */
  function Refilled(st: IpState, cfg: Config, now: real): real {
    MinR(st.tokens + Earned(cfg, now - st.lastRefill), cfg.burst as real)
  }

  function Refill(st: IpState, cfg: Config, now: real): IpState {
    st.(tokens := Refilled(st, cfg, now), lastRefill := now, lastSeen := now)
  }

  predicate IsBlacklisted(st: IpState, now: real) { st.blacklistedUntil.Some? && now < st.blacklistedUntil.value }

  /** An expired blacklisting is forgotten, with its violations. */
  function ClearExpired(st: IpState, now: real): IpState {
    if st.blacklistedUntil.Some? && !IsBlacklisted(st, now) then st.(blacklistedUntil := None, violations := 0) else st
  }

  /** Drop the entries idle for `age`; blacklisted ones are kept. */
  function EvictIdle(m: Table, now: real, age: real): Table {
    map ip | ip in m && (m[ip].blacklistedUntil.Some? || now - m[ip].lastSeen < age) :: m[ip]
  }

  function OnlyBlacklisted(m: Table): Table { map ip | ip in m && m[ip].blacklistedUntil.Some? :: m[ip] }

  function EnforceCap(cfg: Config, m: Table, now: real): Table {
    if |m| < MAX_TRACKED then m
    else
      var a := EvictIdle(m, now, cfg.cleanupSecs as real / 4.0);
      var b := if |a| >= MAX_TRACKED then EvictIdle(a, now, 10.0) else a;
      if |b| >= MAX_TRACKED then OnlyBlacklisted(b) else b
  }

  /** The verdict on one refilled entry, and the entry after it. */
  function Judge(cfg: Config, st: IpState, now: real): (IpState, Verdict) {
    if IsBlacklisted(st, now) then (st, Blacklisted)
    else
      var st1 := ClearExpired(st, now);
      if st1.tokens >= 1.0 then (st1.(tokens := st1.tokens - 1.0), Allowed)
      else
        var n := st1.violations + 1;
        var until := if n >= cfg.maxViolations then Some(now + cfg.blacklistSecs as real) else st1.blacklistedUntil;
        (st1.(violations := n, blacklistedUntil := until), RateLimited(n))
  }

  /** The table a check works on: a new address makes room first. */
  function Prepared(cfg: Config, m: Table, ip: Ip, now: real): Table {
    if ip in m then m
    else
      var m1 := EnforceCap(cfg, m, now);
      m1[ip := NewState(cfg, now)]
  }

  function Check(cfg: Config, whitelist: set<Ip>, m: Table, ip: Ip, now: real): (Table, Verdict) {
    if ip in whitelist then (m, Whitelisted)
    else
      var m1 := Prepared(cfg, m, ip, now);
      var r := Judge(cfg, Refill(m1[ip], cfg, now), now);
      (m1[ip := r.0], r.1)
  }

  function Cleanup(cfg: Config, m: Table, now: real): Table { EvictIdle(m, now, cfg.cleanupSecs as real) }

  function Blacklist(cfg: Config, m: Table, ip: Ip, secs: nat, now: real): Table {
    var st := if ip in m then m[ip] else NewState(cfg, now);
    m[ip := st.(blacklistedUntil := Some(now + secs as real))]
  }

  function Unblacklist(m: Table, ip: Ip): Table {
    if ip in m then m[ip := m[ip].(blacklistedUntil := None, violations := 0)] else m
  }

  // ------------------------------------------------------------------
  // Runs
  // ------------------------------------------------------------------

  datatype Event =
    | ECheck(ip: Ip, now: real)
    | ECleanup(now: real)
    | EBlacklist(ip: Ip, secs: nat, now: real)
    | EUnblacklist(ip: Ip, now: real)

  function Next(cfg: Config, whitelist: set<Ip>, m: Table, e: Event): Table {
    match e
    case ECheck(ip, now) => Check(cfg, whitelist, m, ip, now).0
    case ECleanup(now) => Cleanup(cfg, m, now)
    case EBlacklist(ip, secs, now) => Blacklist(cfg, m, ip, secs, now)
    case EUnblacklist(ip, now) => Unblacklist(m, ip)
  }

  /** 1 when the event is an allowed request of `x`. */
  function AllowedBy(cfg: Config, whitelist: set<Ip>, m: Table, e: Event, x: Ip): nat {
    if e.ECheck? && e.ip == x && Check(cfg, whitelist, m, x, e.now).1 == Allowed then 1 else 0
  }

  /** How many requests of `x` a run from `m` allows. */
  function AllowedIn(cfg: Config, whitelist: set<Ip>, m: Table, evs: seq<Event>, x: Ip): nat
    decreases |evs|
  {
    if evs == [] then 0
    else AllowedBy(cfg, whitelist, m, evs[0], x) + AllowedIn(cfg, whitelist, Next(cfg, whitelist, m, evs[0]),
                                                             evs[1..], x)
  }

  function Run(cfg: Config, whitelist: set<Ip>, m: Table, evs: seq<Event>): Table
    decreases |evs|
  {
    if evs == [] then m else Run(cfg, whitelist, Next(cfg, whitelist, m, evs[0]), evs[1..])
  }

  ghost predicate Chronological(evs: seq<Event>, start: real) {
    && (forall i :: 0 <= i < |evs| ==> start <= evs[i].now)
    && (forall i, j :: 0 <= i < j < |evs| ==> evs[i].now <= evs[j].now)
  }

  /** The address cap never dropped the bucket of `x`. */
  predicate CapSpares(cfg: Config, m: Table, e: Event, x: Ip) {
    e.ECheck? && e.ip !in m && x in m ==> x in EnforceCap(cfg, m, e.now)
  }

  ghost predicate NeverCapped(cfg: Config, whitelist: set<Ip>, m: Table, evs: seq<Event>, x: Ip)
    decreases |evs|
  {
    evs == [] || (CapSpares(cfg, m, evs[0], x)
                  && NeverCapped(cfg, whitelist, Next(cfg, whitelist, m, evs[0]), evs[1..], x))
  }

  // ------------------------------------------------------------------
  // The ideal bucket behind the table
  // ------------------------------------------------------------------

  /** Entries never hold more than the burst, and were last seen when last refilled. */
  ghost predicate Sane(cfg: Config, m: Table, now: real) {
    forall ip :: ip in m ==>
      0.0 <= m[ip].tokens <= cfg.burst as real && m[ip].lastRefill == m[ip].lastSeen && m[ip].lastRefill <= now
  }

  /** The tokens an address has at a time; an address not tracked has a full bucket. */
  function Tokens(cfg: Config, m: Table, x: Ip, now: real): real {
    if x in m then Refilled(m[x], cfg, now) else cfg.burst as real
  }

  /** The sweep only drops buckets that are full again. */
  predicate SweepIsLate(cfg: Config) { cfg.rate * cfg.cleanupSecs >= cfg.burst }

  lemma EarnedAdds(cfg: Config, a: real, b: real)
    requires b >= 0.0
    ensures Earned(cfg, a + b) == Earned(cfg, a) + Earned(cfg, b) && Earned(cfg, b) >= 0.0 && Earned(cfg, 0.0) == 0.0
  {
  }

  lemma EarnedWhole(cfg: Config, n: nat)
    ensures Earned(cfg, n as real) == (cfg.rate * n) as real
  {
  }

  lemma IdleMeansFull(cfg: Config, st: IpState, now: real)
    requires SweepIsLate(cfg) && st.tokens >= 0.0 && now - st.lastRefill >= cfg.cleanupSecs as real
    ensures Refilled(st, cfg, now) == cfg.burst as real
  {
    hide Earned;
    EarnedWhole(cfg, cfg.cleanupSecs);
    EarnedAdds(cfg, cfg.cleanupSecs as real, now - st.lastRefill - cfg.cleanupSecs as real);
    assert now - st.lastRefill == cfg.cleanupSecs as real + (now - st.lastRefill - cfg.cleanupSecs as real);
  }

  lemma RefilledBounds(cfg: Config, st: IpState, t: real, now: real)
    requires 0.0 <= st.tokens <= cfg.burst as real && st.lastRefill <= t <= now
    ensures 0.0 <= Refilled(st, cfg, t) <= Refilled(st, cfg, now) <= cfg.burst as real
    ensures Refilled(st, cfg, now) <= Refilled(st, cfg, t) + Earned(cfg, now - t)
  {
    hide Earned;
    EarnedAdds(cfg, 0.0, t - st.lastRefill);
    EarnedAdds(cfg, t - st.lastRefill, now - t);
    assert now - st.lastRefill == (t - st.lastRefill) + (now - t);
  }

  lemma TokensGrow(cfg: Config, m: Table, x: Ip, t: real, now: real)
    requires Sane(cfg, m, t) && t <= now
    ensures 0.0 <= Tokens(cfg, m, x, t) <= Tokens(cfg, m, x, now) <= cfg.burst as real
    ensures Tokens(cfg, m, x, now) <= Tokens(cfg, m, x, t) + Earned(cfg, now - t)
  {
    hide Refilled, Earned;
    EarnedAdds(cfg, 0.0, now - t);
    if x in m { RefilledBounds(cfg, m[x], t, now); }
  }

  lemma RefillNow(cfg: Config, st: IpState, now: real)
    requires st.lastRefill == now && st.tokens <= cfg.burst as real
    ensures Refilled(st, cfg, now) == st.tokens
  {
    hide Earned;
    EarnedAdds(cfg, 0.0, 0.0);
    assert now - st.lastRefill == 0.0;
  }

  lemma JudgeTokens(cfg: Config, st: IpState, now: real)
    ensures var r := Judge(cfg, st, now);
            && r.0.lastRefill == st.lastRefill && r.0.lastSeen == st.lastSeen
            && r.0.tokens == (if r.1 == Allowed then st.tokens - 1.0 else st.tokens)
            && (r.1 == Allowed ==> st.tokens >= 1.0)
  {
  }

  lemma CapKeeps(cfg: Config, m: Table, now: real)
    ensures EnforceCap(cfg, m, now).Keys <= m.Keys
    ensures forall ip :: ip in EnforceCap(cfg, m, now) ==> EnforceCap(cfg, m, now)[ip] == m[ip]
  {
  }

  lemma PreparedKeeps(cfg: Config, m: Table, ip: Ip, now: real)
    ensures ip in Prepared(cfg, m, ip, now)
    ensures forall j :: j in Prepared(cfg, m, ip, now) && j != ip ==> j in m && Prepared(cfg, m, ip, now)[j] == m[j]
    ensures ip in m ==> Prepared(cfg, m, ip, now) == m
    ensures ip !in m ==> Prepared(cfg, m, ip, now)[ip] == NewState(cfg, now)
  {
    hide EnforceCap;
    CapKeeps(cfg, m, now);
  }

  /** Every event keeps the table sane and, for an address the cap spares, the ideal
      bucket loses exactly one token per allowed request and nothing otherwise: the
      idle sweep cannot be observed when it is late enough. */
  lemma StepTokens(cfg: Config, whitelist: set<Ip>, m: Table, e: Event, x: Ip)
    requires Sane(cfg, m, e.now) && SweepIsLate(cfg) && CapSpares(cfg, m, e, x)
    ensures Sane(cfg, Next(cfg, whitelist, m, e), e.now)
    ensures Tokens(cfg, Next(cfg, whitelist, m, e), x, e.now)
            == Tokens(cfg, m, x, e.now) - AllowedBy(cfg, whitelist, m, e, x) as real
  {
    hide Refilled, EnforceCap, SweepIsLate;
    match e {
      case ECheck(ip, now) =>
        if ip !in whitelist { CheckTokens(cfg, whitelist, m, ip, now, x); }
      case ECleanup(now) =>
        if x in m && x !in Cleanup(cfg, m, now) { IdleMeansFull(cfg, m[x], now); }
      case EBlacklist(ip, secs, now) =>
        RefillNow(cfg, NewState(cfg, now).(blacklistedUntil := Some(now + secs as real)), now);
        if ip in m { SameBucket(cfg, m[ip], Blacklist(cfg, m, ip, secs, now)[ip], now); }
      case EUnblacklist(ip, now) =>
        if ip in m { SameBucket(cfg, m[ip], Unblacklist(m, ip)[ip], now); }
    }
  }

  lemma SameBucket(cfg: Config, a: IpState, b: IpState, now: real)
    requires a.tokens == b.tokens && a.lastRefill == b.lastRefill
    ensures Refilled(a, cfg, now) == Refilled(b, cfg, now)
  {
  }

  lemma CheckTokens(cfg: Config, whitelist: set<Ip>, m: Table, ip: Ip, now: real, x: Ip)
    requires Sane(cfg, m, now) && ip !in whitelist && (ip !in m && x in m ==> x in EnforceCap(cfg, m, now))
    ensures var r := Check(cfg, whitelist, m, ip, now);
            && Sane(cfg, r.0, now)
            && Tokens(cfg, r.0, x, now) == Tokens(cfg, m, x, now) - (if ip == x && r.1 == Allowed then 1.0 else 0.0)
  {
    hide Refilled, EnforceCap, Judge;
    PreparedKeeps(cfg, m, ip, now);
    var m1 := Prepared(cfg, m, ip, now);
    SpareKeeps(cfg, m, ip, now, x);
    var st := Refill(m1[ip], cfg, now);
    RefilledBounds(cfg, m1[ip], m1[ip].lastRefill, now);
    RefillNow(cfg, NewState(cfg, now), now);
    hide Prepared;
    JudgeTokens(cfg, st, now);
    var r := Judge(cfg, st, now);
    RefillNow(cfg, r.0, now);
  }

  lemma SpareKeeps(cfg: Config, m: Table, ip: Ip, now: real, x: Ip)
    requires ip !in m && x in m ==> x in EnforceCap(cfg, m, now)
    ensures x != ip ==> (x in Prepared(cfg, m, ip, now) <==> x in m)
  {
    CapKeeps(cfg, m, now);
  }

  /** The bound over whole runs: from any sane table, in a chronological run that starts
      at `start` and ends by `end`, an address gets at most its tokens plus what the
      time is worth. */
  lemma {:induction false} AllowedBound(cfg: Config, whitelist: set<Ip>, m: Table, evs: seq<Event>, x: Ip, start: real,
                                        end: real)
    requires Sane(cfg, m, start) && SweepIsLate(cfg) && Chronological(evs, start) && start <= end
    requires forall i :: 0 <= i < |evs| ==> evs[i].now <= end
    requires NeverCapped(cfg, whitelist, m, evs, x)
    ensures AllowedIn(cfg, whitelist, m, evs, x) as real <= Tokens(cfg, m, x, start) + Earned(cfg, end - start)
    ensures AllowedIn(cfg, whitelist, m, evs, x) as real <= cfg.burst as real + Earned(cfg, end - start)
    decreases |evs|
  {
    hide Next, AllowedBy, Tokens, Earned, SweepIsLate, CapSpares;
    TokensGrow(cfg, m, x, start, start);
    if evs == [] {
      EarnedAdds(cfg, 0.0, end - start);
    } else {
      var e, rest := evs[0], evs[1..];
      SaneLater(cfg, m, start, e.now);
      StepTokens(cfg, whitelist, m, e, x);
      TokensGrow(cfg, m, x, start, e.now);
      assert Chronological(rest, e.now);
      AllowedBound(cfg, whitelist, Next(cfg, whitelist, m, e), rest, x, e.now, end);
      EarnedAdds(cfg, e.now - start, end - e.now);
      assert end - start == (e.now - start) + (end - e.now);
    }
  }

  lemma SaneLater(cfg: Config, m: Table, t: real, now: real)
    requires Sane(cfg, m, t) && t <= now
    ensures Sane(cfg, m, now)
  {
  }

  /** Every state a run reaches is sane, so the bound holds of every stretch of it:
      in any interval of length T an address gets at most burst + rate * T. */
  lemma {:induction false} IntervalBound(cfg: Config, whitelist: set<Ip>, before: seq<Event>, evs: seq<Event>, x: Ip,
                                         start: real, end: real)
    requires SweepIsLate(cfg) && Chronological(before + evs, 0.0)
    requires forall i :: 0 <= i < |before| ==> before[i].now <= start
    requires forall i :: 0 <= i < |evs| ==> start <= evs[i].now <= end
    requires 0.0 <= start <= end
    requires NeverCapped(cfg, whitelist, Run(cfg, whitelist, map[], before), evs, x)
    ensures AllowedIn(cfg, whitelist, Run(cfg, whitelist, map[], before), evs, x) as real
            <= cfg.burst as real + Earned(cfg, end - start)
  {
    hide Run, AllowedIn, Earned, NeverCapped, SweepIsLate;
    assert forall i :: 0 <= i < |before| ==> (before + evs)[i] == before[i];
    assert forall i :: 0 <= i < |evs| ==> (before + evs)[|before| + i] == evs[i];
    RunIsSane(cfg, whitelist, map[], before, 0.0, start);
    AllowedBound(cfg, whitelist, Run(cfg, whitelist, map[], before), evs, x, start, end);
  }

  lemma {:induction false} RunIsSane(cfg: Config, whitelist: set<Ip>, m: Table, evs: seq<Event>, start: real, end: real)
    requires Sane(cfg, m, start) && Chronological(evs, start) && start <= end
    requires forall i :: 0 <= i < |evs| ==> evs[i].now <= end
    ensures Sane(cfg, Run(cfg, whitelist, m, evs), end)
    decreases |evs|
  {
    hide Next;
    if evs == [] {
      SaneLater(cfg, m, start, end);
    } else {
      SaneLater(cfg, m, start, evs[0].now);
      StepSane(cfg, whitelist, m, evs[0]);
      RunIsSane(cfg, whitelist, Next(cfg, whitelist, m, evs[0]), evs[1..], evs[0].now, end);
    }
  }

  lemma StepSane(cfg: Config, whitelist: set<Ip>, m: Table, e: Event)
    requires Sane(cfg, m, e.now)
    ensures Sane(cfg, Next(cfg, whitelist, m, e), e.now)
  {
    hide Refilled, EnforceCap, Judge;
    if e.ECheck? && e.ip !in whitelist {
      PreparedKeeps(cfg, m, e.ip, e.now);
      hide Prepared;
      var m1 := Prepared(cfg, m, e.ip, e.now);
      RefilledBounds(cfg, m1[e.ip], m1[e.ip].lastRefill, e.now);
      JudgeTokens(cfg, Refill(m1[e.ip], cfg, e.now), e.now);
    }
  }

  // ------------------------------------------------------------------
  // When the sweep comes too early
  // ------------------------------------------------------------------

  function Checks(x: Ip, now: real, n: nat): (r: seq<Event>)
    ensures |r| == n && forall i :: 0 <= i < n ==> r[i] == ECheck(x, now)
  {
    seq(n, i => ECheck(x, now))
  }

  /** `n` requests at once on a bucket of at least `n` tokens are all allowed. */
  lemma {:induction false} BurstAllowed(cfg: Config, m: Table, x: Ip, now: real, n: nat)
    requires x in m && m[x].lastRefill == now && m[x].blacklistedUntil.None?
             && n as real <= m[x].tokens <= cfg.burst as real
    requires m == map[x := m[x]]
    ensures AllowedIn(cfg, {}, m, Checks(x, now, n), x) == n
    ensures var r := Run(cfg, {}, m, Checks(x, now, n));
            r == map[x := IpState(m[x].tokens - n as real, now, m[x].violations, None, if n == 0 then m[x].lastSeen
                                  else now)]
    decreases n
  {
    if n > 0 {
      RefillNow(cfg, m[x], now);
      hide Refilled;
      var evs := Checks(x, now, n);
      var m' := Next(cfg, {}, m, evs[0]);
      assert m' == map[x := IpState(m[x].tokens - 1.0, now, m[x].violations, None, now)];
      assert AllowedBy(cfg, {}, m, evs[0], x) == 1;
      assert evs[1..] == Checks(x, now, n - 1);
      BurstAllowed(cfg, m', x, now, n - 1);
    }
  }

  lemma {:induction false} AllowedConcat(cfg: Config, whitelist: set<Ip>, m: Table, a: seq<Event>, b: seq<Event>, x: Ip)
    ensures AllowedIn(cfg, whitelist, m, a + b, x)
            == AllowedIn(cfg, whitelist, m, a, x) + AllowedIn(cfg, whitelist, Run(cfg, whitelist, m, a), b, x)
    decreases |a|
  {
    hide Next, AllowedBy;
    if a == [] {
      assert a + b == b;
    } else {
      assert (a + b)[1..] == a[1..] + b;
      AllowedConcat(cfg, whitelist, Next(cfg, whitelist, m, a[0]), a[1..], b, x);
    }
  }

  /** A first burst from an address not tracked yet. */
  lemma FreshBurst(cfg: Config, x: Ip, now: real)
    requires cfg.burst >= 1
    ensures AllowedIn(cfg, {}, map[], Checks(x, now, cfg.burst), x) == cfg.burst
    ensures Run(cfg, {}, map[], Checks(x, now, cfg.burst)) == map[x := IpState(0.0, now, 0, None, now)]
  {
    RefillNow(cfg, NewState(cfg, now), now);
    hide Refilled;
    var evs := Checks(x, now, cfg.burst);
    assert evs[1..] == Checks(x, now, cfg.burst - 1);
    var m := Next(cfg, {}, map[], evs[0]);
    assert m == map[x := IpState(cfg.burst as real - 1.0, now, 0, None, now)];
    assert AllowedBy(cfg, {}, map[], evs[0], x) == 1;
    BurstAllowed(cfg, m, x, now, cfg.burst - 1);
  }

  function EarlySweepRun(cfg: Config, x: Ip): seq<Event> {
    Checks(x, 0.0, cfg.burst) + ([ECleanup(cfg.cleanupSecs as real)] + Checks(x, cfg.cleanupSecs as real, cfg.burst))
  }

  /** The condition is exact: whenever rate * cleanup is below the burst, there is a run
      of two bursts around a sweep that beats the bound. */
  lemma EarlySweepBreaksBound(cfg: Config, x: Ip)
    requires !SweepIsLate(cfg)
    ensures var evs := EarlySweepRun(cfg, x);
            && Chronological(evs, 0.0) && (forall i :: 0 <= i < |evs| ==> evs[i].now <= cfg.cleanupSecs as real)
            && AllowedIn(cfg, {}, map[], evs, x) as real > cfg.burst as real + Earned(cfg, cfg.cleanupSecs as real)
  {
    hide Earned, AllowedIn, EarlySweepRun, Chronological;
    EarlySweepCounts(cfg, x);
    EarlySweepTimes(cfg, x);
    EarnedWhole(cfg, cfg.cleanupSecs);
  }

  /** Both bursts are allowed in full. */
  lemma EarlySweepCounts(cfg: Config, x: Ip)
    requires cfg.burst >= 1
    ensures AllowedIn(cfg, {}, map[], EarlySweepRun(cfg, x), x) == 2 * cfg.burst
  {
    hide Checks, AllowedIn, Run;
    var t := cfg.cleanupSecs as real;
    var a, c := Checks(x, 0.0, cfg.burst), Checks(x, t, cfg.burst);
    FreshBurst(cfg, x, 0.0);
    FreshBurst(cfg, x, t);
    AllowedConcat(cfg, {}, map[], a, [ECleanup(t)] + c, x);
    AllowedConcat(cfg, {}, Run(cfg, {}, map[], a), [ECleanup(t)], c, x);
    SweptEmpty(cfg, x);
  }

  lemma EarlySweepTimes(cfg: Config, x: Ip)
    ensures var evs := EarlySweepRun(cfg, x);
            Chronological(evs, 0.0) && forall i :: 0 <= i < |evs| ==> evs[i].now <= cfg.cleanupSecs as real
  {
    hide Checks;
    var evs, t := EarlySweepRun(cfg, x), cfg.cleanupSecs as real;
    forall i | 0 <= i < |evs| ensures evs[i].now == if i < cfg.burst then 0.0 else t {}
  }

  lemma SweptEmpty(cfg: Config, x: Ip)
    ensures var m := map[x := IpState(0.0, 0.0, 0, None, 0.0)];
            var evs := [ECleanup(cfg.cleanupSecs as real)];
            AllowedIn(cfg, {}, m, evs, x) == 0 && Run(cfg, {}, m, evs) == map[]
  {
    var evs := [ECleanup(cfg.cleanupSecs as real)];
    assert evs[1..] == [];
  }

  // ------------------------------------------------------------------
  // The size of the table
  // ------------------------------------------------------------------

  lemma SubTable(a: Table, b: Table)
    requires a.Keys <= b.Keys
    ensures |a| <= |b|
  {
    SubsetSize(a.Keys, b.Keys);
  }

  /** Making room succeeds if and only if fewer than the cap are blacklisted. */
  lemma RoomIffFewBlacklisted(cfg: Config, m: Table, now: real)
    ensures |EnforceCap(cfg, m, now)| < 100_000 <==> |OnlyBlacklisted(m)| < 100_000
  {
    var r, black := EnforceCap(cfg, m, now), OnlyBlacklisted(m);
    assert black.Keys <= r.Keys;
    SubTable(black, r);
    if |r| >= 100_000 { assert r.Keys <= black.Keys; SubTable(r, black); }
  }

  /** So the check of an address not tracked yet stays within the cap under exactly that
      condition; any other check, and the sweep, add nobody. */
  lemma CheckWithinCapIff(cfg: Config, whitelist: set<Ip>, m: Table, ip: Ip, now: real)
    requires ip !in whitelist && ip !in m
    ensures |Check(cfg, whitelist, m, ip, now).0| <= 100_000 <==> |OnlyBlacklisted(m)| < 100_000
  {
    hide EnforceCap, Judge, OnlyBlacklisted, Refilled;
    RoomIffFewBlacklisted(cfg, m, now);
    CapKeeps(cfg, m, now);
    var m1 := EnforceCap(cfg, m, now);
    assert Check(cfg, whitelist, m, ip, now).0.Keys == m1.Keys + {ip};
  }

  /** The event adds an address past the cap: a check while the cap is full of blacklisted
      ones, or a manual blacklisting, which makes no room. */
  predicate Overfills(whitelist: set<Ip>, m: Table, e: Event) {
    || (e.ECheck? && e.ip !in whitelist && e.ip !in m && |OnlyBlacklisted(m)| >= 100_000)
    || (e.EBlacklist? && e.ip !in m && |m| >= 100_000)
  }

  lemma StepWithinCap(cfg: Config, whitelist: set<Ip>, m: Table, e: Event)
    requires |m| <= 100_000
    ensures |Next(cfg, whitelist, m, e)| <= 100_000 <==> !Overfills(whitelist, m, e)
  {
    hide EnforceCap, Judge, OnlyBlacklisted, Refilled;
    var m' := Next(cfg, whitelist, m, e);
    match e
    case ECheck(ip, now) =>
      if ip !in whitelist && ip !in m {
        CheckWithinCapIff(cfg, whitelist, m, ip, now);
      } else {
        assert m'.Keys == m.Keys;
        SubTable(m', m);
      }
    case ECleanup(now) => SubTable(m', m);
    case EBlacklist(ip, secs, now) =>
      assert m'.Keys == m.Keys + {ip};
      if ip in m { SubTable(m', m); }
    case EUnblacklist(ip, now) =>
      assert m'.Keys == m.Keys;
      SubTable(m', m);
  }

  /** Over every run the table stays within its cap as long as no event overfills it, and
      the first that does breaks it. */
  lemma {:induction false} TableBoundedIff(cfg: Config, whitelist: set<Ip>, m: Table, evs: seq<Event>)
    requires |m| <= 100_000
    ensures (forall i :: 0 <= i <= |evs| ==> |Run(cfg, whitelist, m, evs[..i])| <= 100_000) <==>
              (forall i :: 0 <= i < |evs| ==> !Overfills(whitelist, Run(cfg, whitelist, m, evs[..i]), evs[i]))
    decreases |evs|
  {
    hide Next, Overfills;
    if evs == [] {
      assert forall i :: 0 <= i <= |evs| ==> evs[..i] == [];
    } else {
      var m' := Next(cfg, whitelist, m, evs[0]);
      StepWithinCap(cfg, whitelist, m, evs[0]);
      assert evs[..0] == [];
      forall i | 0 <= i < |evs| ensures Run(cfg, whitelist, m, evs[..i + 1]) == Run(cfg, whitelist, m', evs[1..][..i]) {
        assert evs[..i + 1][1..] == evs[1..][..i];
      }
      if |m'| <= 100_000 {
        TableBoundedIff(cfg, whitelist, m', evs[1..]);
        ShiftOverfills(cfg, whitelist, m, evs);
        ShiftBounded(cfg, whitelist, m, evs);
      } else {
        assert Run(cfg, whitelist, m, evs[..1]) == m' by { assert evs[1..][..0] == []; }
        assert Overfills(whitelist, Run(cfg, whitelist, m, evs[..0]), evs[0]);
      }
    }
  }

  lemma ShiftOverfills(cfg: Config, whitelist: set<Ip>, m: Table, evs: seq<Event>)
    requires evs != [] && !Overfills(whitelist, m, evs[0])
    ensures (forall i :: 0 <= i < |evs| ==> !Overfills(whitelist, Run(cfg, whitelist, m, evs[..i]), evs[i])) <==>
              (forall i :: 0 <= i < |evs[1..]| ==>
                 !Overfills(whitelist, Run(cfg, whitelist, Next(cfg, whitelist, m, evs[0]), evs[1..][..i]),
                            evs[1..][i]))
  {
    hide Next, Overfills;
    var m', rest := Next(cfg, whitelist, m, evs[0]), evs[1..];
    assert evs[..0] == [];
    forall i | 0 <= i < |rest|
      ensures Run(cfg, whitelist, m, evs[..i + 1]) == Run(cfg, whitelist, m', rest[..i]) && evs[i + 1] == rest[i]
    {
      assert evs[..i + 1][1..] == rest[..i];
    }
    if forall i :: 0 <= i < |evs| ==> !Overfills(whitelist, Run(cfg, whitelist, m, evs[..i]), evs[i]) {
      forall i | 0 <= i < |rest| ensures !Overfills(whitelist, Run(cfg, whitelist, m', rest[..i]), rest[i]) {
        assert !Overfills(whitelist, Run(cfg, whitelist, m, evs[..i + 1]), evs[i + 1]);
      }
    } else {
      var i :| 0 <= i < |evs| && Overfills(whitelist, Run(cfg, whitelist, m, evs[..i]), evs[i]);
      assert i > 0;
      assert Overfills(whitelist, Run(cfg, whitelist, m', rest[..i - 1]), rest[i - 1]);
    }
  }

  lemma ShiftBounded(cfg: Config, whitelist: set<Ip>, m: Table, evs: seq<Event>)
    requires evs != [] && |m| <= 100_000
    ensures (forall i :: 0 <= i <= |evs| ==> |Run(cfg, whitelist, m, evs[..i])| <= 100_000) <==>
              (forall i :: 0 <= i <= |evs[1..]| ==>
                 |Run(cfg, whitelist, Next(cfg, whitelist, m, evs[0]), evs[1..][..i])| <= 100_000)
  {
    hide Next;
    var m', rest := Next(cfg, whitelist, m, evs[0]), evs[1..];
    assert evs[..0] == [];
    forall i | 0 <= i <= |rest| ensures Run(cfg, whitelist, m, evs[..i + 1]) == Run(cfg, whitelist, m', rest[..i]) {
      assert evs[..i + 1][1..] == rest[..i];
    }
    if forall i :: 0 <= i <= |rest| ==> |Run(cfg, whitelist, m', rest[..i])| <= 100_000 {
      forall i | 0 <= i <= |evs| ensures |Run(cfg, whitelist, m, evs[..i])| <= 100_000 {
        if i > 0 { assert |Run(cfg, whitelist, m', rest[..i - 1])| <= 100_000; }
      }
    } else {
      var i :| 0 <= i <= |rest| && |Run(cfg, whitelist, m', rest[..i])| > 100_000;
      assert |Run(cfg, whitelist, m, evs[..i + 1])| > 100_000;
    }
  }

  // ------------------------------------------------------------------
  // Whom the cap takes
  // ------------------------------------------------------------------

  /** Blacklisted, or seen within the last `age` seconds. */
  ghost function Recent(m: Table, now: real, age: real): set<Ip> {
    set ip | ip in m && (m[ip].blacklistedUntil.Some? || now - m[ip].lastSeen < age)
  }

  /** Below 100000 addresses the cap takes nobody, and it never takes a blacklisted one. Else
      it takes who was not seen for a quarter of the idle time, then, if 100000 are left,
      who was not seen for 10 seconds, and then everybody. Whoever stays keeps the bucket. */
  lemma CapTakes(cfg: Config, m: Table, now: real, x: Ip)
    requires x in m
    ensures x in EnforceCap(cfg, m, now) <==>
              || |m| < 100_000
              || m[x].blacklistedUntil.Some?
              || (var quarter := cfg.cleanupSecs as real / 4.0;
                  && now - m[x].lastSeen < quarter
                  && (|Recent(m, now, quarter)| < 100_000
                      || (now - m[x].lastSeen < 10.0
                          && |Recent(m, now, quarter) * Recent(m, now, 10.0)| < 100_000)))
    ensures x in EnforceCap(cfg, m, now) ==> EnforceCap(cfg, m, now)[x] == m[x]
  {
    var quarter := cfg.cleanupSecs as real / 4.0;
    var a := EvictIdle(m, now, quarter);
    var b := EvictIdle(a, now, 10.0);
    assert a.Keys == Recent(m, now, quarter);
    assert b.Keys == Recent(m, now, quarter) * Recent(m, now, 10.0);
    assert |a| == |a.Keys| && |b| == |b.Keys| && |m| == |m.Keys|;
  }

  // ------------------------------------------------------------------
  // Runs, one event more
  // ------------------------------------------------------------------

  lemma {:induction false} RunSnoc(cfg: Config, whitelist: set<Ip>, m: Table, evs: seq<Event>, e: Event)
    ensures Run(cfg, whitelist, m, evs + [e]) == Next(cfg, whitelist, Run(cfg, whitelist, m, evs), e)
    decreases |evs|
  {
    hide Next;
    if evs == [] {
      assert evs + [e] == [e] && [e][1..] == [];
    } else {
      assert (evs + [e])[1..] == evs[1..] + [e];
      RunSnoc(cfg, whitelist, Next(cfg, whitelist, m, evs[0]), evs[1..], e);
    }
  }

  /** A stretch of a run, from its `k`-th event on, that lies between `start` and `end`. */
  ghost predicate Stretch(evs: seq<Event>, k: nat, start: real, end: real) {
    && k <= |evs| && 0.0 <= start <= end
    && (forall i :: 0 <= i < k ==> evs[i].now <= start)
    && (forall i :: k <= i < |evs| ==> start <= evs[i].now <= end)
  }

  /** The bound of a run for one address, over every stretch up to its end in which the cap
      spares the address. */
  ghost predicate Bounded(cfg: Config, whitelist: set<Ip>, evs: seq<Event>, x: Ip) {
    forall k: nat, start: real, end: real {:trigger Stretch(evs, k, start, end)} ::
      Stretch(evs, k, start, end) && NeverCapped(cfg, whitelist, Run(cfg, whitelist, map[], evs[..k]), evs[k..], x) ==>
        AllowedIn(cfg, whitelist, Run(cfg, whitelist, map[], evs[..k]), evs[k..], x) as real
        <= cfg.burst as real + Earned(cfg, end - start)
  }

  lemma RunIsBounded(cfg: Config, whitelist: set<Ip>, evs: seq<Event>, x: Ip)
    requires SweepIsLate(cfg) && Chronological(evs, 0.0)
    ensures Bounded(cfg, whitelist, evs, x)
  {
    hide Run, AllowedIn, NeverCapped, Earned, SweepIsLate;
    forall k: nat, start: real, end: real | Stretch(evs, k, start, end)
        && NeverCapped(cfg, whitelist, Run(cfg, whitelist, map[], evs[..k]), evs[k..], x)
      ensures AllowedIn(cfg, whitelist, Run(cfg, whitelist, map[], evs[..k]), evs[k..], x) as real
              <= cfg.burst as real + Earned(cfg, end - start)
    {
      assert evs[..k] + evs[k..] == evs;
      IntervalBound(cfg, whitelist, evs[..k], evs[k..], x, start, end);
    }
  }
}
