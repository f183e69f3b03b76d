/** The mutable protector of `dos.rs`. Every object carries the run that led to it, so the
    theorems about runs hold of the object. Time is real-valued seconds. */
module DosProtector {
  import opened Prelude
  import opened DosLimiter
  import opened DosBlacklist

  class Protector {
    const cfg: Config
    const whitelist: set<Ip>
    var states: Table
    var allowedCount: nat
    var blockedCount: nat
    var blacklistedCount: nat
    ghost var trace: seq<Event>

    /** The table is what its run made of an empty one. */
    ghost predicate Valid()
      reads this
    {
      states == Run(cfg, whitelist, map[], trace)
    }

    constructor (cfg: Config, whitelist: set<Ip>)
      ensures Valid() && trace == [] && this.cfg == cfg && this.whitelist == whitelist
    {
      this.cfg, this.whitelist, states, trace := cfg, whitelist, map[], [];
      allowedCount, blockedCount, blacklistedCount := 0, 0, 0;
    }

    ghost method Did(e: Event)
      modifies this`trace
      ensures trace == old(trace) + [e]
      ensures Run(cfg, whitelist, map[], trace) == Next(cfg, whitelist, Run(cfg, whitelist, map[], old(trace)), e)
    {
      hide Run, Next;
      RunSnoc(cfg, whitelist, map[], trace, e);
      trace := trace + [e];
    }

    method MakeRoom(now: real)
      modifies this`states
      ensures states == EnforceCap(cfg, old(states), now)
      ensures |states| < 100_000 <==> |OnlyBlacklisted(old(states))| < 100_000
    {
      RoomIffFewBlacklisted(cfg, states, now);
      hide OnlyBlacklisted;
      if |states| < MAX_TRACKED { return; }
      states := EvictIdle(states, now, cfg.cleanupSecs as real / 4.0);
      if |states| >= MAX_TRACKED { states := EvictIdle(states, now, 10.0); }
      if |states| >= MAX_TRACKED { states := OnlyBlacklisted(states); }
    }

    /** One request: whatever this protector has seen before, the address stays within the
        burst and the rate over every stretch of its run that ends here. The answer is
        read off what was said before: blacklisted exactly before the deadline, else allowed
        exactly with a whole token, else one strike more. */
    method CheckIp(ip: Ip, now: real) returns (v: Verdict)
      requires Valid()
      modifies this
      ensures Valid() && trace == old(trace) + [ECheck(ip, now)]
      ensures var log, tokens := old(Log(cfg, whitelist, trace)), Tokens(cfg, old(states), ip, now);
              v == if ip in whitelist then Whitelisted
                   else Ruling(Deadline(cfg, log, ip), Strikes(cfg, log, ip), tokens, now)
      ensures SweepIsLate(cfg) && Chronological(trace, 0.0) ==> Bounded(cfg, whitelist, trace, ip)
      ensures |old(states)| <= 100_000 ==>
                (|states| <= 100_000 <==> !Overfills(whitelist, old(states), ECheck(ip, now)))
      ensures allowedCount == old(allowedCount) + (if v.Allowed? || v.Whitelisted? then 1 else 0)
      ensures blockedCount == old(blockedCount) + (if v.RateLimited? then 1 else 0)
      ensures blacklistedCount == old(blacklistedCount) + (if v.Blacklisted? then 1 else 0)
    {
      hide Run, Bounded, SweepIsLate, Chronological, Check, Overfills, Log, Ruling, Deadline, Strikes, Tokens;
      RunStanding(cfg, whitelist, trace, ip);
      AnswerIs(cfg, whitelist, states, ip, now);
      if |states| <= MAX_TRACKED { StepWithinCap(cfg, whitelist, states, ECheck(ip, now)); }
      v := JudgeIp(ip, now);
      Did(ECheck(ip, now));
      if SweepIsLate(cfg) && Chronological(trace, 0.0) { RunIsBounded(cfg, whitelist, trace, ip); }
    }

    method JudgeIp(ip: Ip, now: real) returns (v: Verdict)
      modifies this`states, this`allowedCount, this`blockedCount, this`blacklistedCount
      ensures (states, v) == Check(cfg, whitelist, old(states), ip, now)
      ensures allowedCount == old(allowedCount) + (if v.Allowed? || v.Whitelisted? then 1 else 0)
      ensures blockedCount == old(blockedCount) + (if v.RateLimited? then 1 else 0)
      ensures blacklistedCount == old(blacklistedCount) + (if v.Blacklisted? then 1 else 0)
    {
      hide EnforceCap, Refilled, OnlyBlacklisted;
      if ip in whitelist {
        allowedCount := allowedCount + 1;
        return Whitelisted;
      }
      if ip !in states {
        MakeRoom(now);
        states := states[ip := NewState(cfg, now)];
      }
      assert states == Prepared(cfg, old(states), ip, now);
      var st := states[ip];
      st := st.(tokens := Refilled(st, cfg, now), lastRefill := now, lastSeen := now);
      if st.blacklistedUntil.Some? {
        if now < st.blacklistedUntil.value {
          states := states[ip := st];
          blacklistedCount := blacklistedCount + 1;
          return Blacklisted;
        }
        st := st.(blacklistedUntil := None, violations := 0);
      }
      if st.tokens >= 1.0 {
        states := states[ip := st.(tokens := st.tokens - 1.0)];
        allowedCount := allowedCount + 1;
        return Allowed;
      }
      st := st.(violations := st.violations + 1);
      if st.violations >= cfg.maxViolations { st := st.(blacklistedUntil := Some(now + cfg.blacklistSecs as real)); }
      states := states[ip := st];
      blockedCount := blockedCount + 1;
      return RateLimited(st.violations);
    }

    /** Exactly the idle entries that are not blacklisted go. */
    method CleanupExpired(now: real) returns (removed: nat)
      requires Valid()
      modifies this
      ensures Valid() && trace == old(trace) + [ECleanup(now)]
      ensures forall ip :: ip in states <==>
                ip in old(states) && (old(states)[ip].blacklistedUntil.Some?
                                      || now - old(states)[ip].lastSeen < cfg.cleanupSecs as real)
      ensures forall ip :: ip in states ==> states[ip] == old(states)[ip]
      ensures removed == |old(states)| - |states|
    {
      hide Run;
      var kept := EvictIdle(states, now, cfg.cleanupSecs as real);
      SubsetSize(kept.Keys, states.Keys);
      removed := |states| - |kept|;
      states := kept;
      Did(ECleanup(now));
    }

    /** A manual blacklisting sets the deadline of the address and nothing else of it; it makes
        no room and touches nobody else. */
    method BlacklistIp(ip: Ip, secs: nat, now: real)
      requires Valid()
      modifies this
      ensures Valid() && trace == old(trace) + [EBlacklist(ip, secs, now)]
      ensures ip in states && states[ip].blacklistedUntil == Some(now + secs as real)
      ensures states[ip] == (if ip in old(states) then old(states)[ip] else NewState(cfg, now))
                            .(blacklistedUntil := Some(now + secs as real))
      ensures forall j :: j != ip ==> (j in states <==> j in old(states))
      ensures forall j :: j != ip && j in states ==> states[j] == old(states)[j]
    {
      hide Run;
      var st := if ip in states then states[ip] else NewState(cfg, now);
      states := states[ip := st.(blacklistedUntil := Some(now + secs as real))];
      Did(EBlacklist(ip, secs, now));
    }

    method UnblacklistIp(ip: Ip, now: real)
      requires Valid()
      modifies this
      ensures Valid() && trace == old(trace) + [EUnblacklist(ip, now)]
      ensures states.Keys == old(states).Keys && forall j :: j != ip && j in states ==> states[j] == old(states)[j]
      ensures ip in states ==> states[ip] == old(states)[ip].(blacklistedUntil := None, violations := 0)
    {
      hide Run;
      if ip in states { states := states[ip := states[ip].(blacklistedUntil := None, violations := 0)]; }
      Did(EUnblacklist(ip, now));
    }
  }
}
