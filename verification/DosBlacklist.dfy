/** Blacklisting by the token bucket of `dos.rs`: every answer read off what was said and
    done before, over whole runs. */
module DosBlacklist {
  import opened Prelude
  import opened DosLimiter

  // ------------------------------------------------------------------
  // One check
  // ------------------------------------------------------------------

  function UntilOf(m: Table, x: Ip): Option<real> { if x in m then m[x].blacklistedUntil else None }

  function StrikesOf(m: Table, x: Ip): nat { if x in m then m[x].violations else 0 }

  predicate Banned(until: Option<real>, now: real) { until.Some? && now < until.value }

  /** The answer to an address that is not whitelisted: blacklisted before its deadline, else
      allowed exactly when it has a whole token, else one strike more; a deadline that has
      passed wipes the strikes. */
  function Ruling(until: Option<real>, strikes: nat, tokens: real, now: real): Verdict {
    if Banned(until, now) then Blacklisted
    else if tokens >= 1.0 then Allowed
    else RateLimited(if until.Some? then 1 else strikes + 1)
  }

  /** The deadline after a ruling. */
  function NewDeadline(cfg: Config, until: Option<real>, v: Verdict, now: real): Option<real> {
    if v.Blacklisted? then until
    else if v.RateLimited? && v.violations >= cfg.maxViolations then Some(now + cfg.blacklistSecs as real)
    else None
  }

  function NewStrikes(until: Option<real>, strikes: nat, v: Verdict): nat {
    match v
    case RateLimited(n) => n
    case Allowed => if until.Some? then 0 else strikes
    case _ => strikes
  }

  lemma RulingOnEntry(cfg: Config, st: IpState, now: real)
    ensures var r := Judge(cfg, st, now);
            && r.1 == Ruling(st.blacklistedUntil, st.violations, st.tokens, now)
            && r.0.blacklistedUntil == NewDeadline(cfg, st.blacklistedUntil, r.1, now)
            && r.0.violations == NewStrikes(st.blacklistedUntil, st.violations, r.1)
            && r.0.tokens == (if r.1.Allowed? then st.tokens - 1.0 else st.tokens) && r.0.lastRefill == st.lastRefill
  {
  }

  /** One check, from the deadline, the strikes and the tokens the table holds for the
      address: the answer, and what the table holds afterwards. */
  lemma AnswerIs(cfg: Config, whitelist: set<Ip>, m: Table, x: Ip, now: real)
    ensures var (after, v) := Check(cfg, whitelist, m, x, now);
            if x in whitelist then v == Whitelisted && after == m
            else
              && v == Ruling(UntilOf(m, x), StrikesOf(m, x), Tokens(cfg, m, x, now), now)
              && x in after && UntilOf(after, x) == NewDeadline(cfg, UntilOf(m, x), v, now)
              && StrikesOf(after, x) == NewStrikes(UntilOf(m, x), StrikesOf(m, x), v)
              && Tokens(cfg, after, x, now) == Tokens(cfg, m, x, now) - (if v.Allowed? then 1.0 else 0.0)
  {
    if x !in whitelist {
      hide Refilled, EnforceCap, Judge, Ruling, NewDeadline, NewStrikes;
      PreparedKeeps(cfg, m, x, now);
      var m1 := Prepared(cfg, m, x, now);
      RefillNow(cfg, NewState(cfg, now), now);
      var st := Refill(m1[x], cfg, now);
      RulingOnEntry(cfg, st, now);
      AtMostBurst(cfg, m1[x], now);
      RefillNow(cfg, Judge(cfg, st, now).0, now);
    }
  }

  lemma AtMostBurst(cfg: Config, st: IpState, now: real)
    ensures Refilled(st, cfg, now) <= cfg.burst as real
  {
  }

  /** Another address's check, and the sweep, at most forget an address that is not
      blacklisted. */
  lemma OthersKeepStanding(cfg: Config, whitelist: set<Ip>, m: Table, e: Event, x: Ip)
    requires e.ECleanup? || e.ip != x
    ensures UntilOf(Next(cfg, whitelist, m, e), x) == UntilOf(m, x)
    ensures x in Next(cfg, whitelist, m, e) ==> x in m && Next(cfg, whitelist, m, e)[x] == m[x]
  {
    hide Judge, Refill;
    if x in m && m[x].blacklistedUntil.Some? { CapKeepsBlacklisted(cfg, m, e.now, x); }
    CapKeeps(cfg, m, e.now);
    hide EnforceCap;
  }

  lemma CapKeepsBlacklisted(cfg: Config, m: Table, now: real, x: Ip)
    requires x in m && m[x].blacklistedUntil.Some?
    ensures x in EnforceCap(cfg, m, now)
  {
  }

  // ------------------------------------------------------------------
  // What was said, over whole runs
  // ------------------------------------------------------------------

  /** An event, the answer if it is a check, and the addresses the table holds after it. */
  datatype Said = Said(event: Event, answer: Option<Verdict>, tracked: set<Ip>)

  function Answer(cfg: Config, whitelist: set<Ip>, m: Table, e: Event): Option<Verdict> {
    if e.ECheck? then Some(Check(cfg, whitelist, m, e.ip, e.now).1) else None
  }

  function SaidBy(cfg: Config, whitelist: set<Ip>, m: Table, e: Event): Said {
    Said(e, Answer(cfg, whitelist, m, e), Next(cfg, whitelist, m, e).Keys)
  }

  /** A run of a protector that starts with an empty table. */
  function Log(cfg: Config, whitelist: set<Ip>, evs: seq<Event>): (log: seq<Said>)
    ensures |log| == |evs|
  {
    if evs == [] then []
    else
      var n := |evs| - 1;
      Log(cfg, whitelist, evs[..n]) + [SaidBy(cfg, whitelist, Run(cfg, whitelist, map[], evs[..n]), evs[n])]
  }

  /** Until when an address is blacklisted: by the last manual call, or by the last check
      that was its `maxViolations`-th strike; unblacklisting and the first check after the
      deadline end it. */
  function Deadline(cfg: Config, log: seq<Said>, x: Ip): Option<real> {
    if log == [] then None
    else
      var before, s := Deadline(cfg, log[..|log| - 1], x), log[|log| - 1];
      match s.event
      case ECleanup(_) => before
      case EBlacklist(ip, secs, now) => if ip == x then Some(now + secs as real) else before
      case EUnblacklist(ip, _) => if ip == x then None else before
      case ECheck(ip, now) =>
        if ip != x || s.answer.None? || s.answer.value.Whitelisted? then before
        else NewDeadline(cfg, before, s.answer.value, now)
  }

  /** The refusals of an address since it was last forgotten: unblacklisted, checked after its
      deadline, or dropped from the table. */
  function Strikes(cfg: Config, log: seq<Said>, x: Ip): nat {
    if log == [] || x !in log[|log| - 1].tracked then 0
    else
      var init, s := log[..|log| - 1], log[|log| - 1];
      match s.event
      case EUnblacklist(ip, _) => if ip == x then 0 else Strikes(cfg, init, x)
      case ECheck(ip, now) =>
        if ip != x || s.answer.None? || s.answer.value.Whitelisted? then Strikes(cfg, init, x)
        else NewStrikes(Deadline(cfg, init, x), Strikes(cfg, init, x), s.answer.value)
      case _ => Strikes(cfg, init, x)
  }

  ghost predicate Standing(cfg: Config, m: Table, log: seq<Said>, x: Ip) {
    UntilOf(m, x) == Deadline(cfg, log, x) && StrikesOf(m, x) == Strikes(cfg, log, x)
  }

  lemma StepStanding(cfg: Config, whitelist: set<Ip>, m: Table, log: seq<Said>, e: Event, x: Ip)
    requires Standing(cfg, m, log, x)
    ensures Standing(cfg, Next(cfg, whitelist, m, e), log + [SaidBy(cfg, whitelist, m, e)], x)
  {
    var all := log + [SaidBy(cfg, whitelist, m, e)];
    assert all[..|log|] == log;
    if e.ECleanup? || e.ip != x {
      hide Check, EvictIdle, NewDeadline, NewStrikes;
      OthersKeepStanding(cfg, whitelist, m, e, x);
    } else {
      match e {
        case ECheck(ip, now) =>
          AnswerIs(cfg, whitelist, m, x, now);
          hide Check, NewDeadline, NewStrikes, Ruling, Tokens;
        case EBlacklist(ip, secs, now) =>
        case EUnblacklist(ip, now) =>
      }
    }
  }

  /** In every reachable state the table holds of an address exactly what was said of it. */
  lemma {:induction false} RunStanding(cfg: Config, whitelist: set<Ip>, evs: seq<Event>, x: Ip)
    ensures Standing(cfg, Run(cfg, whitelist, map[], evs), Log(cfg, whitelist, evs), x)
  {
    hide Next, SaidBy, Standing;
    if evs == [] {
      NothingSaid(cfg, x);
    } else {
      var n := |evs| - 1;
      RunStanding(cfg, whitelist, evs[..n], x);
      RunSnoc(cfg, whitelist, map[], evs[..n], evs[n]);
      assert evs[..n] + [evs[n]] == evs;
      StepStanding(cfg, whitelist, Run(cfg, whitelist, map[], evs[..n]), Log(cfg, whitelist, evs[..n]), evs[n], x);
    }
  }

  lemma NothingSaid(cfg: Config, x: Ip) ensures Standing(cfg, map[], [], x) {}

  /** The state a run has reached before its `i`-th event. */
  function Before(cfg: Config, whitelist: set<Ip>, evs: seq<Event>, i: nat): Table
    requires i <= |evs|
  {
    Run(cfg, whitelist, map[], evs[..i])
  }

  lemma {:induction false} LogAt(cfg: Config, whitelist: set<Ip>, evs: seq<Event>, i: nat)
    requires i < |evs|
    ensures Log(cfg, whitelist, evs)[i] == SaidBy(cfg, whitelist, Before(cfg, whitelist, evs, i), evs[i])
    ensures Log(cfg, whitelist, evs)[..i] == Log(cfg, whitelist, evs[..i])
    decreases |evs|
  {
    hide SaidBy, Run;
    var n := |evs| - 1;
    if i < n {
      LogAt(cfg, whitelist, evs[..n], i);
      assert evs[..n][..i] == evs[..i];
    }
  }

  /** Every answer, read off what was said before and the tokens of the ideal bucket: over every
      run, an address that is not whitelisted is turned away as blacklisted exactly before
      its deadline, is allowed exactly when it has a whole token, and is else refused with
      one strike more than it had, or the first after a blacklisting. */
  lemma EveryAnswer(cfg: Config, whitelist: set<Ip>, evs: seq<Event>, i: nat, x: Ip, now: real)
    requires i < |evs| && evs[i] == ECheck(x, now)
    ensures var log, tokens := Log(cfg, whitelist, evs), Tokens(cfg, Before(cfg, whitelist, evs, i), x, now);
            log[i].answer == Some(if x in whitelist then Whitelisted
                                  else Ruling(Deadline(cfg, log[..i], x), Strikes(cfg, log[..i], x), tokens, now))
  {
    hide Run, Ruling, Deadline, Strikes, Tokens, Check, Log;
    LogAt(cfg, whitelist, evs, i);
    RunStanding(cfg, whitelist, evs[..i], x);
    AnswerIs(cfg, whitelist, Before(cfg, whitelist, evs, i), x, now);
  }

  // ------------------------------------------------------------------
  // Blacklistings hold, and end
  // ------------------------------------------------------------------

  /** The deadline an entry of the log sets for an address. */
  function Sentence(cfg: Config, s: Said, x: Ip): Option<real> {
    match s.event
    case EBlacklist(ip, secs, now) => if ip == x then Some(now + secs as real) else None
    case ECheck(ip, now) =>
      if ip == x && s.answer.Some? && s.answer.value.RateLimited? && s.answer.value.violations >= cfg.maxViolations
      then Some(now + cfg.blacklistSecs as real) else None
    case _ => None
  }

  /** The event sets the deadline of an address anew, or wipes it. */
  predicate Resets(e: Event, x: Ip) { (e.EBlacklist? || e.EUnblacklist?) && e.ip == x }

  lemma {:induction false} DeadlineHolds(cfg: Config, whitelist: set<Ip>, evs: seq<Event>, k: nat, i: nat, x: Ip,
                                         t: real)
    requires k < i <= |evs| && x !in whitelist && Sentence(cfg, Log(cfg, whitelist, evs)[k], x) == Some(t)
    requires forall j :: k < j < i ==> !Resets(evs[j], x) && (evs[j].ECheck? && evs[j].ip == x ==> evs[j].now < t)
    ensures Deadline(cfg, Log(cfg, whitelist, evs)[..i], x) == Some(t)
    decreases i
  {
    hide Log, Ruling, Strikes, Tokens;
    var log := Log(cfg, whitelist, evs);
    assert log[..i][..i - 1] == log[..i - 1];
    LogAt(cfg, whitelist, evs, i - 1);
    if i - 1 > k {
      DeadlineHolds(cfg, whitelist, evs, k, i - 1, x, t);
      if evs[i - 1].ECheck? && evs[i - 1].ip == x {
        EveryAnswer(cfg, whitelist, evs, i - 1, x, evs[i - 1].now);
        assert log[i - 1].answer == Some(Blacklisted) by { SentencedIsBanned(t, evs[i - 1].now); }
      }
    }
  }

  lemma SentencedIsBanned(t: real, now: real)
    requires now < t
    ensures forall strikes: nat, tokens: real :: Ruling(Some(t), strikes, tokens, now) == Blacklisted
  {
  }

  /** After a manual blacklisting, or the check that was the `maxViolations`-th strike, and
      until something else is decided about the address, every check before the deadline
      is answered Blacklisted and costs no token. */
  lemma BlacklistedUntil(cfg: Config, whitelist: set<Ip>, evs: seq<Event>, k: nat, i: nat, x: Ip, t: real, now: real)
    requires k < i < |evs| && x !in whitelist && Sentence(cfg, Log(cfg, whitelist, evs)[k], x) == Some(t)
    requires forall j :: k < j < i ==> !Resets(evs[j], x) && (evs[j].ECheck? && evs[j].ip == x ==> evs[j].now < t)
    requires evs[i] == ECheck(x, now) && now < t
    ensures Log(cfg, whitelist, evs)[i].answer == Some(Blacklisted)
    ensures Tokens(cfg, Before(cfg, whitelist, evs, i + 1), x, now)
            == Tokens(cfg, Before(cfg, whitelist, evs, i), x, now)
  {
    hide Run, Log, Ruling, Strikes, Tokens, Deadline, Check, NewDeadline, NewStrikes;
    DeadlineHolds(cfg, whitelist, evs, k, i, x, t);
    EveryAnswer(cfg, whitelist, evs, i, x, now);
    SentencedIsBanned(t, now);
    LogAt(cfg, whitelist, evs, i);
    AnswerIs(cfg, whitelist, Before(cfg, whitelist, evs, i), x, now);
    assert evs[..i + 1] == evs[..i] + [evs[i]];
    RunSnoc(cfg, whitelist, map[], evs[..i], evs[i]);
  }

  /** The first check at or after the deadline is not: it is allowed exactly when the address
      has a whole token, and else it is the first strike again. */
  lemma FirstAfterDeadline(cfg: Config, whitelist: set<Ip>, evs: seq<Event>, k: nat, i: nat, x: Ip, t: real, now: real)
    requires k < i < |evs| && x !in whitelist && Sentence(cfg, Log(cfg, whitelist, evs)[k], x) == Some(t)
    requires forall j :: k < j < i ==> !Resets(evs[j], x) && (evs[j].ECheck? && evs[j].ip == x ==> evs[j].now < t)
    requires evs[i] == ECheck(x, now) && now >= t
    ensures Log(cfg, whitelist, evs)[i].answer
            == Some(if Tokens(cfg, Before(cfg, whitelist, evs, i), x, now) >= 1.0 then Allowed else RateLimited(1))
  {
    hide Run, Log, Strikes, Tokens, Deadline;
    DeadlineHolds(cfg, whitelist, evs, k, i, x, t);
    EveryAnswer(cfg, whitelist, evs, i, x, now);
  }

  lemma {:induction false} DeadlineHasCause(cfg: Config, log: seq<Said>, x: Ip) returns (k: nat)
    requires Deadline(cfg, log, x).Some?
    ensures k < |log| && Sentence(cfg, log[k], x) == Deadline(cfg, log, x)
    ensures forall j :: k < j < |log| ==> !Resets(log[j].event, x)
  {
    var n := |log| - 1;
    if Sentence(cfg, log[n], x).Some? {
      k := n;
    } else {
      k := DeadlineHasCause(cfg, log[..n], x);
    }
  }

  /** Nobody is answered Blacklisted without a cause that still stands: a manual blacklisting
      or a strike that reached `maxViolations`, whose time is not over, and after which
      nothing else was decided about the address. */
  lemma BlacklistedHasCause(cfg: Config, whitelist: set<Ip>, evs: seq<Event>, i: nat, x: Ip, now: real) returns (k: nat)
    requires i < |evs| && evs[i] == ECheck(x, now) && Log(cfg, whitelist, evs)[i].answer == Some(Blacklisted)
    ensures k < i && x !in whitelist
    ensures var t := Sentence(cfg, Log(cfg, whitelist, evs)[k], x); t.Some? && now < t.value
    ensures forall j :: k < j < i ==> !Resets(evs[j], x)
  {
    hide Run, Log, Strikes, Tokens, Deadline, Sentence;
    var log := Log(cfg, whitelist, evs);
    EveryAnswer(cfg, whitelist, evs, i, x, now);
    k := DeadlineHasCause(cfg, log[..i], x);
    hide Resets;
    forall j | k < j < i ensures !Resets(evs[j], x) {
      LogAt(cfg, whitelist, evs, j);
      assert log[..i][j] == log[j];
    }
  }

  /** Nothing that wipes the strikes of an address happened at this entry. */
  predicate Remembered(s: Said, x: Ip) {
    x in s.tracked && !(s.event.EUnblacklist? && s.event.ip == x)
  }

  predicate RefusedAs(s: Said, x: Ip, n: nat) {
    s.event.ECheck? && s.event.ip == x && s.answer == Some(RateLimited(n))
  }

  lemma {:induction false} StrikesWereGiven(cfg: Config, log: seq<Said>, x: Ip) returns (k: nat)
    requires Strikes(cfg, log, x) > 0
    ensures k < |log| && RefusedAs(log[k], x, Strikes(cfg, log, x))
    ensures forall j :: k < j < |log| ==> Remembered(log[j], x) && forall n :: !RefusedAs(log[j], x, n)
  {
    hide Deadline;
    var n := |log| - 1;
    if RefusedAs(log[n], x, Strikes(cfg, log, x)) {
      k := n;
    } else {
      k := StrikesWereGiven(cfg, log[..n], x);
    }
  }

  /** Strikes are refusals: the `n`-th one, for `n` above 1, follows an `n - 1`-st, with the
      address remembered and not refused in between. So a check that blacklists is the
      last of `maxViolations` refusals in a row. */
  lemma StrikeFollowsStrike(cfg: Config, whitelist: set<Ip>, evs: seq<Event>, i: nat, x: Ip, n: nat) returns (k: nat)
    requires i < |evs| && n >= 2 && RefusedAs(Log(cfg, whitelist, evs)[i], x, n)
    ensures k < i && RefusedAs(Log(cfg, whitelist, evs)[k], x, n - 1)
    ensures forall j :: k < j < i ==>
              Remembered(Log(cfg, whitelist, evs)[j], x) && forall m :: !RefusedAs(Log(cfg, whitelist, evs)[j], x, m)
  {
    hide Run, Log, Strikes, Tokens, Deadline, Remembered;
    var log := Log(cfg, whitelist, evs);
    LogAt(cfg, whitelist, evs, i);
    EveryAnswer(cfg, whitelist, evs, i, x, evs[i].now);
    k := StrikesWereGiven(cfg, log[..i], x);
    assert log[..i][k] == log[k];
    hide RefusedAs;
    forall j | k < j < i ensures Remembered(log[j], x) && forall m :: !RefusedAs(log[j], x, m) {
      assert log[..i][j] == log[j];
    }
  }
}
