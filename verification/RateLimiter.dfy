/** The sliding-window limiter of `rate_limit.rs`: per client, a deque of the accepted
    requests still inside the window, against the full history of requests. */
module RateLimiter {
  import opened Prelude

  type Ip = string

  const MAX_CLIENTS := 4096

  type Table = map<Ip, seq<nat>>

  datatype Config = Config(limit: nat, window: nat)

  /** Still inside the window at `now`. */
  predicate Inside(cfg: Config, t: nat, now: nat) { SatSub(now, t) < cfg.window }

  /** The deque after dropping, from the front, what left the window. */
  function Pruned(cfg: Config, hits: seq<nat>, now: nat): seq<nat> {
    if hits != [] && !Inside(cfg, hits[0], now) then Pruned(cfg, hits[1..], now) else hits
  }

  lemma {:induction false} PrunedFacts(cfg: Config, hits: seq<nat>, now: nat)
    ensures var r := Pruned(cfg, hits, now);
            && |r| <= |hits| && r == hits[|hits| - |r|..] && (r != [] ==> Inside(cfg, r[0], now))
            && forall i :: 0 <= i < |hits| - |r| ==> !Inside(cfg, hits[i], now)
  {
    hide Inside;
    if hits != [] && !Inside(cfg, hits[0], now) { PrunedFacts(cfg, hits[1..], now); }
  }

  function Hits(m: Table, ip: Ip): seq<nat> { if ip in m then m[ip] else [] }

  /** Clients seen within the last window. */
  function Active(cfg: Config, m: Table, now: nat): Table {
    map ip | ip in m && m[ip] != [] && Inside(cfg, m[ip][|m[ip]| - 1], now) :: m[ip]
  }

  function LastSeen(hits: seq<nat>, now: nat): nat { if hits == [] then now else hits[|hits| - 1] }

  predicate LeastRecent(m: Table, ip: Ip, now: nat) {
    ip in m && forall j :: j in m ==> LastSeen(m[ip], now) <= LastSeen(m[j], now)
  }

  /** Among clients with accepted requests, the least recently seen is one whose last accepted
      request is no later than anybody's. */
  lemma LeastRecentMeans(m: Table, ip: Ip, now: nat)
    requires forall j :: j in m ==> m[j] != []
    ensures LeastRecent(m, ip, now) <==>
              ip in m && forall j :: j in m ==> m[ip][|m[ip]| - 1] <= m[j][|m[j]| - 1]
  {
  }

  /** `make_room`: idle clients go; if that is not enough, so does `victim`, one of the
      least recently seen (which one is the hash map's choice). */
  function MakeRoom(cfg: Config, m: Table, now: nat, victim: Ip): Table {
    var a := Active(cfg, m, now);
    if |a| < MAX_CLIENTS then a else a - {victim}
  }

  /** The table a check works on. */
  function Prepared(cfg: Config, m: Table, ip: Ip, now: nat, victim: Ip): Table {
    if ip !in m && |m| >= MAX_CLIENTS then MakeRoom(cfg, m, now, victim) else m
  }

  predicate GoodVictim(cfg: Config, m: Table, ip: Ip, now: nat, victim: Ip) {
    cfg.limit > 0 && ip !in m && |m| >= 4096 && |Active(cfg, m, now)| >= 4096 ==>
        LeastRecent(Active(cfg, m, now), victim, now)
  }

  function Check(cfg: Config, m: Table, ip: Ip, now: nat, victim: Ip): (Table, bool) {
    if cfg.limit == 0 then (m, true)
    else
      var m1 := Prepared(cfg, m, ip, now, victim);
      var hits := Pruned(cfg, Hits(m1, ip), now);
      if |hits| >= cfg.limit then (m1[ip := hits], false)
      else (m1[ip := hits + [now]], true)
  }

  // ------------------------------------------------------------------
  // Runs against the full history
  // ------------------------------------------------------------------

  datatype Request = Request(ip: Ip, now: nat, victim: Ip)

  function Run(cfg: Config, reqs: seq<Request>): Table {
    if reqs == [] then map[]
    else
      var r := reqs[|reqs| - 1];
      Check(cfg, Run(cfg, reqs[..|reqs| - 1]), r.ip, r.now, r.victim).0
  }

  function Accepts(cfg: Config, reqs: seq<Request>, i: nat): bool
    requires i < |reqs|
  {
    Check(cfg, Run(cfg, reqs[..i]), reqs[i].ip, reqs[i].now, reqs[i].victim).1
  }

  /** The times of every accepted request of a client, oldest first. */
  function History(cfg: Config, reqs: seq<Request>, x: Ip): seq<nat> {
    if reqs == [] then []
    else
      var n := |reqs| - 1;
      History(cfg, reqs[..n], x) + (if reqs[n].ip == x && Accepts(cfg, reqs, n) then [reqs[n].now] else [])
  }

  ghost predicate Chronological(reqs: seq<Request>) {
    forall i, j :: 0 <= i < j < |reqs| ==> reqs[i].now <= reqs[j].now
  }

  /** The cap takes the client's deque away while it still matters. */
  predicate Capped(cfg: Config, m: Table, r: Request, x: Ip) {
    cfg.limit > 0 && r.ip !in m && |m| >= 4096 && |Active(cfg, m, r.now)| >= 4096 && x == r.victim
  }

  ghost predicate NeverCapped(cfg: Config, reqs: seq<Request>, x: Ip) {
    forall i :: 0 <= i < |reqs| ==> !Capped(cfg, Run(cfg, reqs[..i]), reqs[i], x)
  }

  /** How many of these times lie within the window that ends at `now`. */
  function InWindow(cfg: Config, times: seq<nat>, now: nat): nat {
    if times == [] then 0
    else InWindow(cfg, times[..|times| - 1], now) + if Inside(cfg, times[|times| - 1], now) then 1 else 0
  }

  ghost predicate Sorted(times: seq<nat>) { forall i, j :: 0 <= i < j < |times| ==> times[i] <= times[j] }

  /** The deque is the end of the history, and what it dropped is out of the window for
      good (from `now` on). */
  ghost predicate Suffix(cfg: Config, hits: seq<nat>, times: seq<nat>, now: nat) {
    && |hits| <= |times| && hits == times[|times| - |hits|..]
    && forall i :: 0 <= i < |times| - |hits| ==> !Inside(cfg, times[i], now)
  }

  lemma {:induction false} InWindowFrom(cfg: Config, times: seq<nat>, k: nat, now: nat)
    requires k <= |times| && (forall i :: 0 <= i < k ==> !Inside(cfg, times[i], now))
    requires forall i :: k <= i < |times| ==> Inside(cfg, times[i], now)
    ensures InWindow(cfg, times, now) == |times| - k
  {
    hide Inside;
    if times != [] {
      var n := |times| - 1;
      InWindowFrom(cfg, times[..n], if k <= n then k else n, now);
    }
  }

  lemma {:induction false} InWindowAtLeast(cfg: Config, times: seq<nat>, k: nat, now: nat)
    requires k <= |times| && forall i :: k <= i < |times| ==> Inside(cfg, times[i], now)
    ensures InWindow(cfg, times, now) >= |times| - k
  {
    hide Inside;
    if times != [] && k < |times| {
      InWindowAtLeast(cfg, times[..|times| - 1], k, now);
    }
  }

  /** With sorted times, everything behind the first one inside is inside. */
  lemma PrunedInside(cfg: Config, hits: seq<nat>, now: nat)
    requires Sorted(hits)
    ensures forall i :: 0 <= i < |Pruned(cfg, hits, now)| ==> Inside(cfg, Pruned(cfg, hits, now)[i], now)
  {
    hide Pruned;
    PrunedFacts(cfg, hits, now);
    var r := Pruned(cfg, hits, now);
    var off := |hits| - |r|;
    assert forall i :: 0 <= i < |r| ==> r[i] == hits[off + i];
    assert forall i :: 0 <= i < |r| ==> r[0] <= r[i];
  }

  lemma SuffixLater(cfg: Config, hits: seq<nat>, times: seq<nat>, t: nat, now: nat)
    requires Suffix(cfg, hits, times, t) && t <= now
    ensures Suffix(cfg, hits, times, now)
  {
  }

  lemma SuffixPruned(cfg: Config, hits: seq<nat>, times: seq<nat>, now: nat)
    requires Suffix(cfg, hits, times, now)
    ensures Suffix(cfg, Pruned(cfg, hits, now), times, now)
  {
    hide Pruned, Inside;
    PrunedFacts(cfg, hits, now);
    var r := Pruned(cfg, hits, now);
    var off := |times| - |hits|;
    assert forall i :: 0 <= i < |hits| ==> hits[i] == times[off + i];
    assert r == times[|times| - |r|..];
    forall i | 0 <= i < |times| - |r| ensures !Inside(cfg, times[i], now) {
      if off <= i { assert times[i] == hits[i - off]; }
    }
  }

  lemma SuffixAppend(cfg: Config, hits: seq<nat>, times: seq<nat>, now: nat)
    requires Suffix(cfg, hits, times, now)
    ensures Suffix(cfg, hits + [now], times + [now], now)
  {
    hide Inside;
    var off := |times| - |hits|;
    assert (times + [now])[off..] == times[off..] + [now];
  }

  // ------------------------------------------------------------------
  // The invariant
  // ------------------------------------------------------------------

  /** Any `limit + 1` accepted requests in a row span at least a window. */
  ghost predicate Spread(cfg: Config, times: seq<nat>) {
    forall i :: 0 <= i && i + cfg.limit < |times| ==> times[i + cfg.limit] - times[i] >= cfg.window
  }

  /** The deque of a client against the times of all its accepted requests. */
  ghost predicate Tracks(cfg: Config, hits: seq<nat>, times: seq<nat>, now: nat) {
    && Suffix(cfg, hits, times, now) && Sorted(times) && (forall i :: 0 <= i < |times| ==> times[i] <= now)
    && Spread(cfg, times)
  }

  lemma DropIdle(cfg: Config, hits: seq<nat>, times: seq<nat>, now: nat)
    requires Suffix(cfg, hits, times, now) && Sorted(times)
    requires hits == [] || !Inside(cfg, hits[|hits| - 1], now)
    ensures Suffix(cfg, [], times, now)
  {
    if hits != [] {
      var last := times[|times| - 1];
      assert last == hits[|hits| - 1];
      assert forall i :: 0 <= i < |times| ==> times[i] <= last;
    }
  }

  /** Making room is unobservable for a client the cap does not take. */
  lemma PreparedTracks(cfg: Config, m: Table, r: Request, times: seq<nat>, x: Ip)
    requires Tracks(cfg, Hits(m, x), times, r.now) && !Capped(cfg, m, r, x) && cfg.limit > 0
    ensures Tracks(cfg, Hits(Prepared(cfg, m, r.ip, r.now, r.victim), x), times, r.now)
  {
    hide Inside, Suffix, Spread;
    var m1 := Prepared(cfg, m, r.ip, r.now, r.victim);
    if Hits(m1, x) != Hits(m, x) {
      DropIdle(cfg, m[x], times, r.now);
    }
  }

  lemma SpreadAppend(cfg: Config, times: seq<nat>, now: nat)
    requires Sorted(times) && Spread(cfg, times) && InWindow(cfg, times, now) < cfg.limit
    requires forall i :: 0 <= i < |times| ==> times[i] <= now
    ensures Spread(cfg, times + [now])
  {
    var t := times + [now];
    forall i | 0 <= i && i + cfg.limit < |t| ensures t[i + cfg.limit] - t[i] >= cfg.window {
      if i + cfg.limit == |times| {
        if forall j :: i <= j < |times| ==> Inside(cfg, times[j], now) {
          InWindowAtLeast(cfg, times, i, now);
        } else {
          var j :| i <= j < |times| && !Inside(cfg, times[j], now);
          assert times[i] <= times[j];
        }
      }
    }
  }

  lemma SuffixSorted(cfg: Config, hits: seq<nat>, times: seq<nat>, now: nat)
    requires Suffix(cfg, hits, times, now) && Sorted(times)
    ensures Sorted(hits)
  {
    hide Inside;
    var off := |times| - |hits|;
    assert forall i :: 0 <= i < |hits| ==> hits[i] == times[off + i];
  }

  lemma SuffixCounts(cfg: Config, r: seq<nat>, times: seq<nat>, now: nat)
    requires Suffix(cfg, r, times, now) && forall i :: 0 <= i < |r| ==> Inside(cfg, r[i], now)
    ensures InWindow(cfg, times, now) == |r|
  {
    hide Inside, InWindow;
    var off := |times| - |r|;
    forall i | off <= i < |times| ensures Inside(cfg, times[i], now) { assert times[i] == r[i - off]; }
    InWindowFrom(cfg, times, off, now);
  }

  lemma CheckCounts(cfg: Config, hits: seq<nat>, times: seq<nat>, now: nat)
    requires Suffix(cfg, hits, times, now) && Sorted(times)
    ensures |Pruned(cfg, hits, now)| == InWindow(cfg, times, now)
    ensures Suffix(cfg, Pruned(cfg, hits, now), times, now)
  {
    hide Inside, Pruned, Suffix, Sorted, InWindow;
    SuffixPruned(cfg, hits, times, now);
    SuffixSorted(cfg, hits, times, now);
    PrunedInside(cfg, hits, now);
    SuffixCounts(cfg, Pruned(cfg, hits, now), times, now);
  }

  lemma TracksLater(cfg: Config, hits: seq<nat>, times: seq<nat>, t: nat, now: nat)
    requires Tracks(cfg, hits, times, t) && t <= now
    ensures Tracks(cfg, hits, times, now)
  {
    hide Inside, Spread;
    SuffixLater(cfg, hits, times, t, now);
  }

  lemma SortedAppend(times: seq<nat>, now: nat)
    requires Sorted(times) && forall i :: 0 <= i < |times| ==> times[i] <= now
    ensures Sorted(times + [now])
  {
  }

  /** One request of the client itself. */
  lemma OwnRequest(cfg: Config, hits: seq<nat>, times: seq<nat>, now: nat)
    requires Tracks(cfg, hits, times, now)
    ensures var p := Pruned(cfg, hits, now);
            && |p| == InWindow(cfg, times, now) && Tracks(cfg, p, times, now)
            && (|p| < cfg.limit ==> Tracks(cfg, p + [now], times + [now], now))
  {
    hide Inside, Pruned, Spread, InWindow, Suffix, Sorted;
    CheckCounts(cfg, hits, times, now);
    var p := Pruned(cfg, hits, now);
    SuffixAppend(cfg, p, times, now);
    SortedAppend(times, now);
    if |p| < cfg.limit { SpreadAppend(cfg, times, now); }
  }

  /** One request: the verdict is the count over the full history, and the deque keeps
      tracking it. */
  lemma StepTracks(cfg: Config, m: Table, r: Request, times: seq<nat>, x: Ip)
    requires Tracks(cfg, Hits(m, x), times, r.now) && !Capped(cfg, m, r, x) && cfg.limit > 0
    ensures var c := Check(cfg, m, r.ip, r.now, r.victim);
            && (r.ip == x ==> (c.1 <==> InWindow(cfg, times, r.now) < cfg.limit))
            && Tracks(cfg, Hits(c.0, x), if r.ip == x && c.1 then times + [r.now] else times, r.now)
  {
    hide Pruned, Prepared, InWindow, Tracks, Capped;
    PreparedTracks(cfg, m, r, times, x);
    var m1 := Prepared(cfg, m, r.ip, r.now, r.victim);
    if r.ip == x { OwnRequest(cfg, Hits(m1, x), times, r.now); }
  }

  function LastTime(reqs: seq<Request>): nat { if reqs == [] then 0 else reqs[|reqs| - 1].now }

  lemma EmptyTracks(cfg: Config, x: Ip)
    ensures Tracks(cfg, Hits(map[], x), [], 0)
  {
  }

  lemma PrefixNeverCapped(cfg: Config, reqs: seq<Request>, x: Ip, n: nat)
    requires Chronological(reqs) && NeverCapped(cfg, reqs, x) && n < |reqs|
    ensures Chronological(reqs[..n]) && NeverCapped(cfg, reqs[..n], x) && LastTime(reqs[..n]) <= reqs[n].now
    ensures !Capped(cfg, Run(cfg, reqs[..n]), reqs[n], x)
  {
    hide Run, Capped;
    var init := reqs[..n];
    assert forall i :: 0 <= i < n ==> init[..i] == reqs[..i];
  }

  lemma {:induction false} RunTracks(cfg: Config, reqs: seq<Request>, x: Ip)
    requires Chronological(reqs) && NeverCapped(cfg, reqs, x) && cfg.limit > 0
    ensures Tracks(cfg, Hits(Run(cfg, reqs), x), History(cfg, reqs, x), LastTime(reqs))
  {
    hide Check, Tracks, Capped, Hits, NeverCapped, Chronological;
    if reqs == [] {
      EmptyTracks(cfg, x);
    } else {
      var n := |reqs| - 1;
      var init, r := reqs[..n], reqs[n];
      PrefixNeverCapped(cfg, reqs, x, n);
      RunTracks(cfg, init, x);
      TracksLater(cfg, Hits(Run(cfg, init), x), History(cfg, init, x), LastTime(init), r.now);
      StepTracks(cfg, Run(cfg, init), r, History(cfg, init, x), x);
      assert History(cfg, init, x) + [] == History(cfg, init, x);
    }
  }

  lemma Unlimited(cfg: Config, reqs: seq<Request>, i: nat)
    requires i < |reqs| && cfg.limit == 0
    ensures Accepts(cfg, reqs, i)
  {
  }

  /** The accepted requests, by their place in the history, that are less than a window old. */
  ghost function Lately(times: seq<nat>, now: nat, window: nat): set<nat> {
    set i: nat | i < |times| && now < times[i] + window
  }

  lemma {:induction false} InWindowIsLately(cfg: Config, times: seq<nat>, now: nat)
    requires forall i :: 0 <= i < |times| ==> times[i] <= now
    ensures InWindow(cfg, times, now) == |Lately(times, now, cfg.window)|
  {
    if times == [] {
      assert Lately(times, now, cfg.window) == {};
    } else {
      var n := |times| - 1;
      InWindowIsLately(cfg, times[..n], now);
      var before, all := Lately(times[..n], now, cfg.window), Lately(times, now, cfg.window);
      assert all == if now < times[n] + cfg.window then before + {n} else before;
    }
  }

  /** The pruned deque decides exactly as the full history would: with a clock that never
      goes back and a client the cap never takes, a request is accepted exactly when
      fewer than `limit` of its accepted requests are less than a window old (a limit of 0
      lets everything through). */
  lemma {:induction false} ExactAdmission(cfg: Config, reqs: seq<Request>, i: nat)
    requires i < |reqs| && Chronological(reqs) && NeverCapped(cfg, reqs, reqs[i].ip)
    ensures Accepts(cfg, reqs, i) <==>
              cfg.limit == 0 || |Lately(History(cfg, reqs[..i], reqs[i].ip), reqs[i].now, cfg.window)| < cfg.limit
  {
    if cfg.limit == 0 { Unlimited(cfg, reqs, i); return; }
    hide Check, Capped, Run, History, InWindow, Hits, Chronological, NeverCapped, Lately, Suffix, Sorted, Spread;
    var x, init := reqs[i].ip, reqs[..i];
    PrefixNeverCapped(cfg, reqs, x, i);
    RunTracks(cfg, init, x);
    TracksLater(cfg, Hits(Run(cfg, init), x), History(cfg, init, x), LastTime(init), reqs[i].now);
    StepTracks(cfg, Run(cfg, init), reqs[i], History(cfg, init, x), x);
    InWindowIsLately(cfg, History(cfg, init, x), reqs[i].now);
  }

  /** So no window holds more than `limit` accepted requests of a client: any
      `limit + 1` in a row are at least a window apart. */
  lemma NoWindowOverflows(cfg: Config, reqs: seq<Request>, x: Ip)
    requires Chronological(reqs) && NeverCapped(cfg, reqs, x) && cfg.limit > 0
    ensures Sorted(History(cfg, reqs, x)) && Spread(cfg, History(cfg, reqs, x))
  {
    hide Run, History, Suffix, Spread, Sorted;
    RunTracks(cfg, reqs, x);
  }

  /** Every client the cap took was a least recently seen one. */
  ghost predicate GoodVictims(cfg: Config, reqs: seq<Request>) {
    forall i :: 0 <= i < |reqs| ==>
      GoodVictim(cfg, Run(cfg, reqs[..i]), reqs[i].ip, reqs[i].now, reqs[i].victim)
  }

  lemma GoodVictimsBefore(cfg: Config, reqs: seq<Request>, n: nat)
    requires GoodVictims(cfg, reqs) && n < |reqs|
    ensures GoodVictims(cfg, reqs[..n])
    ensures GoodVictim(cfg, Run(cfg, reqs[..n]), reqs[n].ip, reqs[n].now, reqs[n].victim)
  {
    hide Run, GoodVictim;
    forall i | 0 <= i < n
      ensures GoodVictim(cfg, Run(cfg, reqs[..n][..i]), reqs[..n][i].ip, reqs[..n][i].now, reqs[..n][i].victim)
    {
      assert reqs[..n][..i] == reqs[..i];
    }
  }

  lemma RunStep(cfg: Config, reqs: seq<Request>)
    requires reqs != []
    ensures var n := |reqs| - 1;
            Run(cfg, reqs) == Check(cfg, Run(cfg, reqs[..n]), reqs[n].ip, reqs[n].now, reqs[n].victim).0
  {
    hide Check;
  }

  lemma NothingTracked(cfg: Config) ensures Run(cfg, []) == map[] {}

  /** With one check at a time the table never exceeds its cap. */
  lemma {:induction false} TableBounded(cfg: Config, reqs: seq<Request>)
    requires GoodVictims(cfg, reqs)
    ensures |Run(cfg, reqs)| <= 4096
    decreases |reqs|
  {
    hide Run, Check, GoodVictim, GoodVictims;
    if reqs == [] {
      NothingTracked(cfg);
    } else {
      var n := |reqs| - 1;
      GoodVictimsBefore(cfg, reqs, n);
      TableBounded(cfg, reqs[..n]);
      StepBounded(cfg, Run(cfg, reqs[..n]), reqs[n]);
      RunStep(cfg, reqs);
    }
  }

  lemma StepBounded(cfg: Config, m: Table, r: Request)
    requires |m| <= MAX_CLIENTS && GoodVictim(cfg, m, r.ip, r.now, r.victim)
    ensures |Check(cfg, m, r.ip, r.now, r.victim).0| <= 4096
  {
    hide Prepared, Pruned, Hits, GoodVictim;
    var m1 := Prepared(cfg, m, r.ip, r.now, r.victim);
    PreparedBounded(cfg, m, r);
    var m2 := Check(cfg, m, r.ip, r.now, r.victim).0;
    if cfg.limit > 0 {
      assert m2.Keys == m1.Keys + {r.ip};
    }
  }

  lemma PreparedBounded(cfg: Config, m: Table, r: Request)
    requires |m| <= MAX_CLIENTS && GoodVictim(cfg, m, r.ip, r.now, r.victim)
    ensures var m1 := Prepared(cfg, m, r.ip, r.now, r.victim);
            cfg.limit > 0 ==> |m1| <= 4096 && (r.ip !in m1 ==> |m1| < 4096)
  {
    hide Active;
    ActiveSmaller(cfg, m, r.now);
    var a := Active(cfg, m, r.now);
    if cfg.limit > 0 && r.ip !in m && |m| >= MAX_CLIENTS && |a| >= MAX_CLIENTS {
      assert (a - {r.victim}).Keys == a.Keys - {r.victim};
    }
  }

  lemma ActiveSmaller(cfg: Config, m: Table, now: nat)
    ensures |Active(cfg, m, now)| <= |m|
  {
    SubsetSize(Active(cfg, m, now).Keys, m.Keys);
  }

  lemma ActiveSeen(cfg: Config, m: Table, now: nat)
    ensures forall j :: j in Active(cfg, m, now) ==> Active(cfg, m, now)[j] != []
  {
  }

  // ------------------------------------------------------------------
  // The limiter object
  // ------------------------------------------------------------------

  class Limiter {
    const cfg: Config
    var inner: Table
    ghost var trace: seq<Request>

    /** The table is what its run made of an empty one, and it is within the cap. */
    ghost predicate Valid()
      reads this
    {
      inner == Run(cfg, trace) && GoodVictims(cfg, trace) && |inner| <= 4096
    }

    constructor (cfg: Config)
      ensures Valid() && this.cfg == cfg && trace == []
    {
      this.cfg, inner, trace := cfg, map[], [];
    }

    /** Scan for a least recently seen client. */
    method FindOldest(now: nat) returns (victim: Ip)
      requires inner != map[]
      ensures LeastRecent(inner, victim, now)
    {
      var left := inner.Keys;
      victim :| victim in left;
      left := left - {victim};
      while left != {}
        invariant left < inner.Keys && victim in inner
        invariant forall j :: j in inner && j !in left ==> LastSeen(inner[victim], now) <= LastSeen(inner[j], now)
        decreases |left|
      {
        var ip :| ip in left;
        if LastSeen(inner[ip], now) < LastSeen(inner[victim], now) { victim := ip; }
        left := left - {ip};
      }
    }

    method EvictForOne(now: nat) returns (victim: Ip)
      modifies this`inner
      ensures inner == MakeRoom(cfg, old(inner), now, victim)
      ensures |Active(cfg, old(inner), now)| >= 4096 ==> LeastRecent(Active(cfg, old(inner), now), victim, now)
      ensures |Active(cfg, old(inner), now)| >= 4096 ==>
                var active := Active(cfg, old(inner), now);
                && victim in active && active[victim] != []
                && forall j :: j in active ==>
                  active[j] != [] && active[victim][|active[victim]| - 1] <= active[j][|active[j]| - 1]
    {
      ActiveSeen(cfg, inner, now);
      hide Active, LeastRecent;
      victim := "";
      inner := Active(cfg, inner, now);
      if |inner| >= MAX_CLIENTS {
        victim := FindOldest(now);
        LeastRecentMeans(inner, victim, now);
        inner := inner - {victim};
      }
    }

    /** One request. With a clock that never goes back, and unless the cap ever took this
        client, it is accepted exactly when fewer than `limit` of all requests of the
        client this limiter ever accepted are less than a window old. */
    method Hit(ip: Ip, now: nat) returns (ok: bool, ghost victim: Ip)
      requires Valid()
      modifies this
      ensures Valid() && trace == old(trace) + [Request(ip, now, victim)]
      ensures Chronological(trace) && NeverCapped(cfg, trace, ip) ==>
                (ok <==> cfg.limit == 0 || |Lately(History(cfg, old(trace), ip), now, cfg.window)| < cfg.limit)
      ensures History(cfg, trace, ip) == old(History(cfg, trace, ip)) + (if ok then [now] else [])
    {
      hide Run, History, Lately, Chronological, NeverCapped, GoodVictims, Check;
      ok, victim := CheckTable(ip, now);
      HitFacts(cfg, trace, Request(ip, now, victim));
      trace := trace + [Request(ip, now, victim)];
    }

    method CheckTable(ip: Ip, now: nat) returns (ok: bool, victim: Ip)
      modifies this`inner
      ensures GoodVictim(cfg, old(inner), ip, now, victim)
      ensures (inner, ok) == Check(cfg, old(inner), ip, now, victim)
    {
      hide Inside, Active, LeastRecent, MakeRoom, Pruned;
      victim := "";
      if cfg.limit == 0 { return true, victim; }
      if ip !in inner && |inner| >= MAX_CLIENTS { victim := EvictForOne(now); }
      assert inner == Prepared(cfg, old(inner), ip, now, victim);
      var hits := PopExpired(cfg, Hits(inner, ip), now);
      if |hits| >= cfg.limit {
        inner := inner[ip := hits];
        ok := false;
      } else {
        inner := inner[ip := hits + [now]];
        ok := true;
      }
    }
  }

  /** What one more request means for a run. */
  lemma HitFacts(cfg: Config, reqs: seq<Request>, r: Request)
    requires GoodVictims(cfg, reqs) && GoodVictim(cfg, Run(cfg, reqs), r.ip, r.now, r.victim)
    ensures var all := reqs + [r];
            var (m, ok) := Check(cfg, Run(cfg, reqs), r.ip, r.now, r.victim);
            && GoodVictims(cfg, all) && Run(cfg, all) == m && |m| <= 4096
            && (Chronological(all) && NeverCapped(cfg, all, r.ip) ==>
                  (ok <==> cfg.limit == 0 || |Lately(History(cfg, reqs, r.ip), r.now, cfg.window)| < cfg.limit))
            && History(cfg, all, r.ip) == History(cfg, reqs, r.ip) + (if ok then [r.now] else [])
  {
    hide Run, Lately, Chronological, NeverCapped, Check, GoodVictim;
    var all, n := reqs + [r], |reqs|;
    assert all[..n] == reqs;
    RunStep(cfg, all);
    forall i | 0 <= i < |all| ensures GoodVictim(cfg, Run(cfg, all[..i]), all[i].ip, all[i].now, all[i].victim) {
      if i < n { assert all[..i] == reqs[..i] && all[i] == reqs[i]; }
    }
    TableBounded(cfg, all);
    if Chronological(all) && NeverCapped(cfg, all, r.ip) { ExactAdmission(cfg, all, n); }
  }

  /** The loop that pops the front of a deque. */
  method PopExpired(cfg: Config, all: seq<nat>, now: nat) returns (hits: seq<nat>)
    ensures hits == Pruned(cfg, all, now)
  {
    hits := all;
    while hits != [] && SatSub(now, hits[0]) >= cfg.window
      invariant Pruned(cfg, hits, now) == Pruned(cfg, all, now)
      decreases |hits|
    {
      hits := hits[1..];
    }
  }
}
