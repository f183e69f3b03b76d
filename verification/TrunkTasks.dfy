/** The background loops of a trunk (`trunk_tasks.rs`): OPTIONS probing and outbound
    registration, over every sequence of answers the trunk may give. */
module TrunkTasks {
  import opened Prelude

  // ------------------------------------------------------------------
  // Backoff
  // ------------------------------------------------------------------

  /** The wait after the `k`-th refusal since the last success, counted from 0. */
  function BackoffWait(min: nat, max: nat, k: nat): nat { Min(min * Pow2(k), Max(max, min)) }

  lemma DoublingWait(min: nat, max: nat, k: nat)
    ensures Min(2 * BackoffWait(min, max, k), Max(max, min)) == BackoffWait(min, max, k + 1)
  {
    assert min * Pow2(k + 1) == 2 * (min * Pow2(k));
  }

  lemma CapIsRaised(min: nat, max: nat, k: nat)
    ensures BackoffWait(min, Max(max, min), k) == BackoffWait(min, max, k)
  {
  }

  class Backoff {
    var cur: nat
    const min: nat
    const max: nat

    /** `k` refusals since the last success. */
    ghost predicate After(k: nat) reads this { max >= min && cur == BackoffWait(min, max, k) }

    constructor (min: nat, max: nat)
      ensures this.min == min && this.max == Max(max, min) && After(0)
    {
      this.cur, this.min, this.max := min, min, Max(max, min);
    }

    method NextWait(ghost k: nat) returns (wait: nat)
      requires After(k)
      modifies this
      ensures wait == BackoffWait(min, max, k) && After(k + 1)
    {
      wait := cur;
      cur := Min(cur * 2, max);
      DoublingWait(min, max, k);
    }

    method Reset()
      requires max >= min
      modifies this
      ensures After(0)
    {
      cur := min;
    }
  }

  // ------------------------------------------------------------------
  // One REGISTER exchange
  // ------------------------------------------------------------------

  /** What comes of one request: an answer (its status, its Expires and Min-Expires where
      they can be read, whether a challenge in it can), or none. */
  datatype Answer =
    | Reply(status: nat, expires: Option<nat>, minExpires: Option<nat>, challenge: bool)
    | NotSent
    | Silence
    | Dropped
    | Stop

  datatype Outcome =
    | Registered(granted: nat)
    | TooBrief(min: nat)
    | Refused(code: nat)
    | SendFailed
    | Timeout
    | Malformed
    | Cancelled

  /** A REGISTER as sent. */
  datatype Request = Request(callId: string, cseq: nat, expires: nat, authenticated: bool)

  predicate IsChallenge(a: Answer) { a.Reply? && (a.status == 401 || a.status == 407) }

  function MinExpiresOf(a: Answer): Outcome
    requires a.Reply?
  {
    if a.minExpires.Some? && a.minExpires.value > 0 then TooBrief(a.minExpires.value) else Malformed
  }

  /** What an answer that is not challenged further amounts to. */
  function Verdict(a: Answer, expires: nat): Outcome {
    match a
    case NotSent => SendFailed
    case Silence => Timeout
    case Dropped => Malformed
    case Stop => Cancelled
    case Reply(status, _, _, _) =>
      if status == 200 then Registered(if a.expires.Some? then a.expires.value else expires)
      else if status == 423 then MinExpiresOf(a)
      else Refused(status)
  }

  /** What one exchange comes to: a readable challenge is answered once, and only once. */
  function Exchange(dest: bool, expires: nat, a1: Answer, a2: Answer): Outcome {
    if !dest then SendFailed
    else if IsChallenge(a1) then (if a1.challenge then Verdict(a2, expires) else Malformed)
    else Verdict(a1, expires)
  }

  /** The answer an exchange comes to: the second, when a readable challenge was answered. */
  function Final(a1: Answer, a2: Answer): Answer {
    if a1.Reply? && (a1.status == 401 || a1.status == 407) && a1.challenge then a2 else a1
  }

  /** What an exchange means. A 200 is a registration for the time its own answer grants, or
      the time asked for when it names none. A 423 that names a minimum asks for more. An
      unreadable challenge, an answer that cannot be read and a 423 without a minimum are
      malformed. Every other status, a second challenge among them, is a refusal with that
      status, and silence is a timeout. */
  lemma ExchangeMeans(dest: bool, expires: nat, a1: Answer, a2: Answer)
    ensures var o, a := Exchange(dest, expires, a1, a2), Final(a1, a2);
            var unread := a1.Reply? && (a1.status == 401 || a1.status == 407) && !a1.challenge;
            if !dest then o == SendFailed
            else if unread then o == Malformed
            else match a
              case Reply(status, granted, min, _) =>
                && (status == 200 && granted.Some? ==> o == Registered(granted.value))
                && (status == 200 && granted.None? ==> o == Registered(expires))
                && (status == 423 && min.Some? && min.value > 0 ==> o == TooBrief(min.value))
                && (status == 423 && (min.None? || min.value == 0) ==> o == Malformed)
                && (status != 200 && status != 423 ==> o == Refused(status))
              case NotSent => o == SendFailed
              case Silence => o == Timeout
              case Dropped => o == Malformed
              case Stop => o == Cancelled
  {
  }

  /** `send_register`: the request, and once more with credentials when challenged. */
  method SendRegister(dest: bool, callId: string, expires: nat, cseq: nat, a1: Answer, a2: Answer)
    returns (outcome: Outcome, sent: seq<Request>, cseq': nat)
    ensures cseq' == cseq + |sent|
    ensures forall i :: 0 <= i < |sent| ==> sent[i] == Request(callId, cseq + 1 + i, expires, i == 1)
    ensures |sent| == if !dest then 0 else if IsChallenge(a1) && a1.challenge then 2 else 1
    ensures outcome == Exchange(dest, expires, a1, a2) && (!dest ==> outcome == SendFailed)
  {
    if !dest { return SendFailed, [], cseq; }
    cseq' := cseq + 1;
    sent := [Request(callId, cseq', expires, false)];
    if !IsChallenge(a1) { return Verdict(a1, expires), sent, cseq'; }
    if !a1.challenge { return Malformed, sent, cseq'; }
    cseq' := cseq' + 1;
    sent := sent + [Request(callId, cseq', expires, true)];
    outcome := Verdict(a2, expires);
  }

  // ------------------------------------------------------------------
  // The registration loop
  // ------------------------------------------------------------------

  datatype Config = Config(refreshMin: nat, refreshFloor: nat, retryFixed: nat, backoffMin: nat, backoffMax: nat)

  const DEFAULTS := Config(30, 60, 60, 30, 900)

  /** What the outside does during one cycle: the answers to at most four requests, and
      whether the loop is stopped while it waits. */
  datatype CycleInput = CycleInput(a1: Answer, a2: Answer, b1: Answer, b2: Answer, stopped: bool)

  datatype Event = NowRegistered | NowUnregistered

  /** One turn of the loop. */
  datatype Cycle = Cycle(sent: seq<Request>, outcome: Outcome, event: Option<Event>, wait: nat)

  function Sent(trace: seq<Cycle>): seq<Request> {
    if trace == [] then [] else Sent(trace[..|trace| - 1]) + trace[|trace| - 1].sent
  }

  function Events(trace: seq<Cycle>): seq<Event> {
    if trace == [] then []
    else
      var e := trace[|trace| - 1].event;
      Events(trace[..|trace| - 1]) + (if e.Some? then [e.value] else [])
  }

  function LastEvent(trace: seq<Cycle>): Option<Event> {
    var e := Events(trace);
    if e == [] then None else Some(e[|e| - 1])
  }

  function Expected(o: Outcome): Event { if o.Registered? then NowRegistered else NowUnregistered }

  predicate IsRefusal(o: Outcome) { o.Refused? || o.TooBrief? }

  /** Refusals since the last success: timeouts and lost requests neither add nor clear. */
  function RefusalsSince(trace: seq<Cycle>): nat {
    if trace == [] then 0
    else
      var o := trace[|trace| - 1].outcome;
      if o.Registered? then 0
      else RefusalsSince(trace[..|trace| - 1]) + (if IsRefusal(o) then 1 else 0)
  }

  /** How long a grant is kept before it is refreshed. */
  function RefreshWait(cfg: Config, interval: nat, granted: nat): nat {
    Min(Max(Max(granted * 8 / 10, 1), cfg.refreshMin), Max(interval, cfg.refreshFloor))
  }

  /** A grant is refreshed after eight tenths of its time, but not before the refresh minimum and
      not after the interval asked for or the refresh floor; so before it runs out exactly
      when it exceeds the minimum. */
  lemma RefreshInTimeIff(cfg: Config, interval: nat, granted: nat)
    requires 1 <= cfg.refreshMin <= cfg.refreshFloor
    ensures var lo, hi := cfg.refreshMin, if interval < cfg.refreshFloor then cfg.refreshFloor else interval;
            RefreshWait(cfg, interval, granted)
            == (if granted * 8 / 10 < lo then lo else if granted * 8 / 10 > hi then hi else granted * 8 / 10)
    ensures RefreshWait(cfg, interval, granted) < granted <==> granted > cfg.refreshMin
    ensures RefreshWait(DEFAULTS, interval, granted) < granted <==> granted > 30
  {
    assert granted * 8 / 10 <= granted;
  }

  /** The wait of a cycle: after a grant, a refusal, or anything else. */
  function WaitAfter(cfg: Config, interval: nat, before: seq<Cycle>, o: Outcome): nat {
    if o.Registered? then RefreshWait(cfg, interval, o.granted)
    else if IsRefusal(o) then BackoffWait(cfg.backoffMin, cfg.backoffMax, RefusalsSince(before))
    else cfg.retryFixed
  }

  /** The refusals, by their place, after which nothing has been granted: answers that refuse or
      ask for more. */
  ghost function Unanswered(trace: seq<Cycle>): set<nat> {
    set i: nat | i < |trace| && (trace[i].outcome.Refused? || trace[i].outcome.TooBrief?)
                 && forall j :: i < j < |trace| ==> !trace[j].outcome.Registered?
  }

  lemma UnansweredGrows(trace: seq<Cycle>)
    requires trace != []
    ensures var n := |trace| - 1;
            var o, before := trace[n].outcome, Unanswered(trace[..n]);
            n !in before
            && Unanswered(trace)
               == if o.Registered? then {} else if o.Refused? || o.TooBrief? then before + {n} else before
  {
    var n := |trace| - 1;
    forall i | 0 <= i < n
      ensures i in Unanswered(trace) <==> !trace[n].outcome.Registered? && i in Unanswered(trace[..n])
    {
      assert forall j :: i < j < n ==> trace[..n][j] == trace[j];
      assert trace[..n][i] == trace[i];
    }
  }

  lemma {:induction false} RefusalsAreCounted(trace: seq<Cycle>)
    ensures RefusalsSince(trace) == |Unanswered(trace)|
  {
    hide Unanswered;
    if trace == [] {
      NothingUnanswered();
    } else {
      UnansweredGrows(trace);
      RefusalsAreCounted(trace[..|trace| - 1]);
    }
  }

  lemma NothingUnanswered() ensures Unanswered([]) == {} {}

  /** A refusal doubles the wait: after `k` others since the last grant it is the minimum times
      2^k, up to the maximum. */
  lemma RefusalWaits(cfg: Config, interval: nat, before: seq<Cycle>, o: Outcome)
    requires o.Refused? || o.TooBrief?
    ensures WaitAfter(cfg, interval, before, o)
            == Min(cfg.backoffMin * Pow2(|Unanswered(before)|), Max(cfg.backoffMax, cfg.backoffMin))
  {
    hide Unanswered, RefusalsSince;
    RefusalsAreCounted(before);
  }

  /** One Call-ID, and CSeq 1, 2, 3, … without a gap. */
  predicate Numbered(sent: seq<Request>, callId: string) {
    forall i :: 0 <= i < |sent| ==> sent[i].callId == callId && sent[i].cseq == i + 1
  }

  predicate NeverFalls(sent: seq<Request>) {
    forall i, j :: 0 <= i < j < |sent| ==> sent[i].expires <= sent[j].expires
  }

  predicate Asks(sent: seq<Request>, lo: nat, hi: nat) { forall i :: 0 <= i < |sent| ==> lo <= sent[i].expires <= hi }

  predicate Alternates(events: seq<Event>) {
    forall i :: 0 <= i < |events| - 1 ==> events[i] != events[i + 1]
  }

  predicate Timed(cfg: Config, interval: nat, trace: seq<Cycle>) {
    forall i :: 0 <= i < |trace| && !trace[i].outcome.Cancelled? ==>
      trace[i].wait == WaitAfter(cfg, interval, trace[..i], trace[i].outcome)
  }

  /** After each cycle the last event announced tells whether the trunk is registered. */
  predicate Announced(trace: seq<Cycle>) {
    forall i :: 0 <= i < |trace| && !trace[i].outcome.Cancelled? ==>
      LastEvent(trace[..i + 1]) == Some(Expected(trace[i].outcome))
  }

  predicate BoundedCycles(trace: seq<Cycle>) { forall i :: 0 <= i < |trace| ==> |trace[i].sent| <= 4 }

  function InitialExpires(interval: nat): nat { Min(Max(interval, 1), U32 - 1) }

  /** The outcome of a cycle and the interval asked for from then on: a 423 that asks for
      more is obeyed at once, and once. */
  function Turn(dest: bool, expires: nat, w: CycleInput): (Outcome, nat) {
    var o := Exchange(dest, expires, w.a1, w.a2);
    if o.TooBrief? && o.min > expires then (Exchange(dest, o.min, w.b1, w.b2), o.min) else (o, expires)
  }

  function ExpiresAfter(dest: bool, interval: nat, script: seq<CycleInput>): nat {
    if script == [] then InitialExpires(interval)
    else Turn(dest, ExpiresAfter(dest, interval, script[..|script| - 1]), script[|script| - 1]).1
  }

  /** A cycle asks for `expires`; when that is answered with a 423 that names more, it asks for
      that at once, and for nothing else after that. The interval asked for from then on is
      the last one asked for. */
  lemma TurnMeans(dest: bool, expires: nat, w: CycleInput)
    ensures var first := Exchange(dest, expires, w.a1, w.a2);
            if first.TooBrief? && first.min > expires
            then Turn(dest, expires, w) == (Exchange(dest, first.min, w.b1, w.b2), first.min)
            else Turn(dest, expires, w) == (first, expires)
    ensures expires <= Turn(dest, expires, w).1
  {
    hide Exchange;
  }

  predicate Stops(o: Outcome, w: CycleInput) { o.Cancelled? || w.stopped }

  /** The cycles are those the script brings about, up to the first that stops the loop. */
  predicate Follows(dest: bool, interval: nat, script: seq<CycleInput>, trace: seq<Cycle>) {
    && |trace| <= |script|
    && (forall i :: 0 <= i < |trace| ==>
          trace[i].outcome == Turn(dest, ExpiresAfter(dest, interval, script[..i]), script[i]).0)
    && forall i :: 0 <= i < |trace| - 1 ==> !Stops(trace[i].outcome, script[i])
  }

  predicate StoppedAt(script: seq<CycleInput>, trace: seq<Cycle>) {
    0 < |trace| <= |script| && Stops(trace[|trace| - 1].outcome, script[|trace| - 1])
  }

  lemma AddFollows(dest: bool, interval: nat, script: seq<CycleInput>, trace: seq<Cycle>, c: Cycle)
    requires Follows(dest, interval, script, trace) && |trace| < |script| && !StoppedAt(script, trace)
    requires c.outcome == Turn(dest, ExpiresAfter(dest, interval, script[..|trace|]), script[|trace|]).0
    ensures Follows(dest, interval, script, trace + [c])
    ensures ExpiresAfter(dest, interval, script[..|trace| + 1])
              == Turn(dest, ExpiresAfter(dest, interval, script[..|trace|]), script[|trace|]).1
    ensures StoppedAt(script, trace + [c]) <==> Stops(c.outcome, script[|trace|])
  {
    hide Turn, Stops;
    assert script[..|trace| + 1][..|trace|] == script[..|trace|];
  }

  lemma SnocTrace(trace: seq<Cycle>, c: Cycle)
    ensures Sent(trace + [c]) == Sent(trace) + c.sent
    ensures Events(trace + [c]) == Events(trace) + (if c.event.Some? then [c.event.value] else [])
    ensures RefusalsSince(trace + [c]) ==
              if c.outcome.Registered? then 0 else RefusalsSince(trace) + (if IsRefusal(c.outcome) then 1 else 0)
  {
    assert (trace + [c])[..|trace|] == trace;
  }

  /** Requests of one exchange carry the next numbers and the given Expires. */
  predicate NextBatch(sent: seq<Request>, callId: string, cseq: nat, expires: nat) {
    forall i :: 0 <= i < |sent| ==>
      sent[i].callId == callId && sent[i].cseq == cseq + 1 + i && sent[i].expires == expires
  }

  lemma AddBatch(log: seq<Request>, batch: seq<Request>, callId: string, lo: nat, hi: nat, expires: nat)
    requires Numbered(log, callId) && NextBatch(batch, callId, |log|, expires)
    ensures Numbered(log + batch, callId)
    ensures NeverFalls(log) && Asks(log, lo, hi) && lo <= hi <= expires ==>
              NeverFalls(log + batch) && Asks(log + batch, lo, expires)
  {
  }

  /** The event of a cycle is news, and after it the last event is the expected one. */
  predicate EventFits(trace: seq<Cycle>, c: Cycle) {
    && (c.event.Some? ==> c.event != LastEvent(trace))
    && (c.outcome.Cancelled? ==> c.event.None?)
    && (!c.outcome.Cancelled? ==> Some(Expected(c.outcome)) == if c.event.Some? then c.event else LastEvent(trace))
  }

  lemma AddEvent(trace: seq<Cycle>, c: Cycle)
    requires Alternates(Events(trace)) && Announced(trace) && EventFits(trace, c)
    ensures Alternates(Events(trace + [c])) && Announced(trace + [c])
  {
    hide Events, Expected;
    SnocTrace(trace, c);
    var t := trace + [c];
    forall i | 0 <= i < |t| && !t[i].outcome.Cancelled? ensures LastEvent(t[..i + 1]) == Some(Expected(t[i].outcome)) {
      if i == |trace| {
        assert t[..i + 1] == t;
      } else {
        assert t[..i + 1] == trace[..i + 1];
      }
    }
  }

  lemma AddTimed(cfg: Config, interval: nat, trace: seq<Cycle>, c: Cycle)
    requires Timed(cfg, interval, trace)
    requires !c.outcome.Cancelled? ==> c.wait == WaitAfter(cfg, interval, trace, c.outcome)
    ensures Timed(cfg, interval, trace + [c])
  {
    hide WaitAfter;
    var t := trace + [c];
    assert t[..|trace|] == trace;
    forall i | 0 <= i < |trace| ensures t[..i] == trace[..i] {}
  }

  /** The first request asks for the interval of the trunk; before it, so does the loop. */
  predicate StartsWith(sent: seq<Request>, interval: nat, expires: nat) {
    (if sent == [] then expires else sent[0].expires) == InitialExpires(interval)
  }

  /** The state of the loop between two cycles. */
  ghost predicate LoopInv(cfg: Config, interval: nat, callId: string, trace: seq<Cycle>, cseq: nat, expires: nat) {
    && Numbered(Sent(trace), callId) && cseq == |Sent(trace)| && BoundedCycles(trace)
    && NeverFalls(Sent(trace)) && InitialExpires(interval) <= expires && StartsWith(Sent(trace), interval, expires)
    && Asks(Sent(trace), InitialExpires(interval), expires)
    && Alternates(Events(trace)) && Announced(trace) && Timed(cfg, interval, trace)
  }

  lemma StartKept(log: seq<Request>, s1: seq<Request>, s2: seq<Request>, callId: string, cseq: nat, interval: nat,
                  expires: nat, expires': nat)
    requires StartsWith(log, interval, expires) && NextBatch(s1, callId, cseq, expires)
    requires s1 == [] ==> s2 == [] && expires' == expires
    ensures StartsWith(log + (s1 + s2), interval, expires')
  {
    hide InitialExpires;
  }

  lemma AddCycle(cfg: Config, interval: nat, callId: string, trace: seq<Cycle>, cseq: nat, expires: nat,
                 c: Cycle, s1: seq<Request>, s2: seq<Request>, expires': nat)
    requires LoopInv(cfg, interval, callId, trace, cseq, expires) && expires <= expires'
    requires c.sent == s1 + s2 && |c.sent| <= 4 && (s1 == [] ==> s2 == [] && expires' == expires)
    requires NextBatch(s1, callId, cseq, expires) && NextBatch(s2, callId, cseq + |s1|, expires')
    requires EventFits(trace, c)
    requires !c.outcome.Cancelled? ==> c.wait == WaitAfter(cfg, interval, trace, c.outcome)
    ensures LoopInv(cfg, interval, callId, trace + [c], cseq + |c.sent|, expires')
  {
    hide Sent, Events, Alternates, Announced, Timed, WaitAfter, Numbered, NeverFalls, NextBatch, InitialExpires, Asks,
      EventFits, StartsWith;
    SnocTrace(trace, c);
    StartKept(Sent(trace), s1, s2, callId, cseq, interval, expires, expires');
    AddEvent(trace, c);
    AddTimed(cfg, interval, trace, c);
    AddBatch(Sent(trace), s1, callId, InitialExpires(interval), expires, expires);
    AddBatch(Sent(trace) + s1, s2, callId, InitialExpires(interval), expires, expires');
    assert Sent(trace) + s1 + s2 == Sent(trace) + (s1 + s2);
  }

  /** Some request went out with credentials, so a challenge is remembered. */
  predicate Authenticated(sent: seq<Request>) { exists i :: 0 <= i < |sent| && sent[i].authenticated }

  lemma AuthenticatedAppend(a: seq<Request>, b: seq<Request>)
    ensures Authenticated(a + b) <==> Authenticated(a) || Authenticated(b)
  {
    if Authenticated(a) {
      var i :| 0 <= i < |a| && a[i].authenticated;
      assert (a + b)[i] == a[i];
    }
    if Authenticated(b) {
      var i :| 0 <= i < |b| && b[i].authenticated;
      assert (a + b)[|a| + i] == b[i];
    }
  }

  lemma AuthenticatedPair(sent: seq<Request>)
    requires |sent| <= 2 && forall i :: 0 <= i < |sent| ==> sent[i].authenticated == (i == 1)
    ensures Authenticated(sent) <==> |sent| == 2
  {
    if |sent| == 2 { assert sent[1].authenticated; }
  }

  /** The requests of one cycle: an exchange, and a second one when a 423 asks for more. */
  method TakeTurn(dest: bool, callId: string, expires: nat, cseq: nat, w: CycleInput)
    returns (outcome: Outcome, s1: seq<Request>, s2: seq<Request>, expires': nat)
    ensures (outcome, expires') == Turn(dest, expires, w) && expires <= expires'
    ensures s1 == [] ==> s2 == [] && expires' == expires
    ensures |s1| <= 2 && |s2| <= 2 && (Authenticated(s1 + s2) <==> |s1| == 2 || |s2| == 2)
    ensures NextBatch(s1, callId, cseq, expires) && NextBatch(s2, callId, cseq + |s1|, expires')
  {
    hide Exchange;
    var cseq';
    outcome, s1, cseq' := SendRegister(dest, callId, expires, cseq, w.a1, w.a2);
    s2, expires' := [], expires;
    if outcome.TooBrief? && outcome.min > expires {
      expires' := outcome.min;
      outcome, s2, cseq' := SendRegister(dest, callId, expires', cseq', w.b1, w.b2);
    }
    AuthenticatedPair(s1);
    AuthenticatedPair(s2);
    AuthenticatedAppend(s1, s2);
  }

  /** Taking the binding down: at process shutdown one request, with credentials when a
      challenge is remembered to answer; else a full exchange. */
  method SendFarewell(dest: bool, callId: string, cseq: nat, fastStop: bool, remembered: bool, f1: Answer, f2: Answer)
    returns (farewell: seq<Request>)
    ensures NextBatch(farewell, callId, cseq, 0) && |farewell| <= 2 && (farewell != [] <==> dest)
    ensures fastStop && dest ==> |farewell| == 1 && farewell[0].authenticated == remembered
    ensures !fastStop && dest ==> !farewell[0].authenticated && (|farewell| == 2 <==> IsChallenge(f1) && f1.challenge)
    ensures !fastStop && |farewell| == 2 ==> farewell[1].authenticated
  {
    farewell := [];
    if fastStop {
      if dest { farewell := [Request(callId, cseq + 1, 0, remembered)]; }
    } else {
      var _, sent, _ := SendRegister(dest, callId, 0, cseq, f1, f2);
      farewell := sent;
    }
  }

  /** `register_loop`, from its start to its stop (at the latest when `script` ends), and
      the farewell it sends when the trunk was removed. `known` says whether a challenge
      of this trunk is remembered from an earlier loop. */
  method RegisterLoop(cfg: Config, interval: nat, dest: bool, callId: string, script: seq<CycleInput>,
                      unregister: bool, fastStop: bool, known: bool, f1: Answer, f2: Answer)
    returns (trace: seq<Cycle>, farewell: seq<Request>)
    requires cfg.refreshMin <= cfg.refreshFloor
    // The outcomes are those of the script, until something stops the loop or it ends.
    ensures Follows(dest, interval, script, trace) && (|trace| == |script| || StoppedAt(script, trace))
    // One Call-ID with CSeq 1, 2, 3, …, the farewell included.
    ensures Numbered(Sent(trace) + farewell, callId)
    // The interval asked for starts with that of the trunk, at least 1 and at most what 32 bits
    // hold, and never falls before the final 0.
    ensures Sent(trace) != [] ==>
              Sent(trace)[0].expires == if interval == 0 then 1 else Min(interval, 0xFFFF_FFFF)
    ensures NeverFalls(Sent(trace))
            && Asks(Sent(trace), if interval == 0 then 1 else Min(interval, 0xFFFF_FFFF),
                    ExpiresAfter(dest, interval, script[..|trace|]))
    ensures |farewell| <= 2 && Asks(farewell, 0, 0)
    ensures BoundedCycles(trace)
    // The farewell goes out exactly when a registration is standing.
    ensures farewell != [] <==> dest && unregister && LastEvent(trace) == Some(NowRegistered)
    // At shutdown it carries credentials exactly when a challenge was ever answered.
    ensures fastStop && farewell != [] ==>
              |farewell| == 1 && farewell[0].authenticated == (known || Authenticated(Sent(trace)))
    ensures Alternates(Events(trace)) && Announced(trace)
    ensures Timed(cfg, interval, trace)
    // A request that got no readable answer is repeated after a fixed time.
    ensures forall i :: 0 <= i < |trace| ==>
              trace[i].outcome.SendFailed? || trace[i].outcome.Timeout? || trace[i].outcome.Malformed? ==>
              trace[i].wait == cfg.retryFixed
  {
    hide StartsWith, Sent, Events, Alternates, Announced, Timed, Numbered, NeverFalls, LoopInv, BackoffWait, Verdict,
      RefusalsSince, BoundedCycles, LastEvent, Turn, Follows, StoppedAt, ExpiresAfter, Authenticated;
    trace := [];
    var expires: nat := InitialExpires(interval);
    var backoff := new Backoff(cfg.backoffMin, cfg.backoffMax);
    var cseq: nat, registered, announced := 0, false, false;
    StartOfLoop(cfg, interval, callId, dest, script);
    var remembered := known;
    NothingSent();
    var n, running := 0, true;
    while n < |script| && running
      invariant n == |trace| <= |script| && fresh(backoff)
      invariant Follows(dest, interval, script, trace) && running == !StoppedAt(script, trace)
      invariant expires == ExpiresAfter(dest, interval, script[..n])
      invariant remembered == (known || Authenticated(Sent(trace)))
      invariant backoff.min == cfg.backoffMin && backoff.max == Max(cfg.backoffMax, cfg.backoffMin)
      invariant running ==> backoff.After(RefusalsSince(trace))
      invariant LoopInv(cfg, interval, callId, trace, cseq, expires)
      invariant registered == (LastEvent(trace) == Some(NowRegistered))
      invariant !registered ==> announced == LastEvent(trace).Some?
      decreases |script| - n
    {
      var w := script[n];
      n := n + 1;
      var cseq0, expires0 := cseq, expires;
      var outcome, s1, s2;
      outcome, s1, s2, expires := TakeTurn(dest, callId, expires, cseq, w);
      cseq := cseq + |s1| + |s2|;
      if |s1| == 2 || |s2| == 2 { remembered := true; }
      AuthenticatedAppend(Sent(trace), s1 + s2);
      var event, wait: nat := None, 0;
      if outcome.Cancelled? {
        running := false;
      } else if outcome.Registered? {
        event := if registered then None else Some(NowRegistered);
        registered, announced := true, false;
        backoff.Reset();
        wait := RefreshWait(cfg, interval, outcome.granted);
        running := !w.stopped;
      } else {
        assert LastEvent(trace).None? || LastEvent(trace).value.NowRegistered?
            || LastEvent(trace).value.NowUnregistered?;
        event := if registered || !announced then Some(NowUnregistered) else None;
        registered, announced := false, true;
        if IsRefusal(outcome) {
          wait := backoff.NextWait(RefusalsSince(trace));
          CapIsRaised(cfg.backoffMin, cfg.backoffMax, RefusalsSince(trace));
        } else {
          wait := cfg.retryFixed;
        }
        running := !w.stopped;
      }
      var c := Cycle(s1 + s2, outcome, event, wait);
      AddCycle(cfg, interval, callId, trace, cseq0, expires0, c, s1, s2, expires);
      SnocTrace(trace, c);
      LastOf(trace, c);
      AddFollows(dest, interval, script, trace, c);
      trace := trace + [c];
    }
    farewell := [];
    if registered && unregister { farewell := SendFarewell(dest, callId, cseq, fastStop, remembered, f1, f2); }
    EndOfLoop(cfg, interval, callId, trace, cseq, expires, farewell);
  }

  lemma NothingSent() ensures !Authenticated(Sent([])) {}

  lemma LastOf(trace: seq<Cycle>, c: Cycle)
    ensures LastEvent(trace + [c]) == if c.event.Some? then c.event else LastEvent(trace)
  {
    hide Events, Sent, RefusalsSince;
    SnocTrace(trace, c);
    var before, after := Events(trace), Events(trace + [c]);
    if c.event.Some? {
      assert after[|after| - 1] == c.event.value;
    } else {
      assert after == before;
    }
  }

  lemma StartOfLoop(cfg: Config, interval: nat, callId: string, dest: bool, script: seq<CycleInput>)
    ensures Follows(dest, interval, script, []) && !StoppedAt(script, [])
    ensures ExpiresAfter(dest, interval, script[..0]) == InitialExpires(interval)
    ensures LoopInv(cfg, interval, callId, [], 0, InitialExpires(interval)) && LastEvent([]) == None
            && RefusalsSince([]) == 0
  {
    hide Turn, WaitAfter, Stops;
    assert script[..0] == [];
  }

  lemma EndOfLoop(cfg: Config, interval: nat, callId: string, trace: seq<Cycle>, cseq: nat, expires: nat,
                  farewell: seq<Request>)
    requires LoopInv(cfg, interval, callId, trace, cseq, expires) && NextBatch(farewell, callId, cseq, 0)
    ensures Numbered(Sent(trace) + farewell, callId)
    ensures NeverFalls(Sent(trace)) && Asks(Sent(trace), InitialExpires(interval), expires) && Asks(farewell, 0, 0)
    ensures BoundedCycles(trace) && Alternates(Events(trace)) && Announced(trace) && Timed(cfg, interval, trace)
    ensures Sent(trace) != [] ==> Sent(trace)[0].expires == InitialExpires(interval)
    ensures forall i :: 0 <= i < |trace| ==>
              trace[i].outcome.SendFailed? || trace[i].outcome.Timeout? || trace[i].outcome.Malformed? ==>
              trace[i].wait == cfg.retryFixed
  {
    hide Sent, Events, Alternates, Announced, NeverFalls, InitialExpires, RefreshWait, BackoffWait, RefusalsSince;
    AddBatch(Sent(trace), farewell, callId, 0, 0, 0);
  }

  // ------------------------------------------------------------------
  // The OPTIONS probe loop
  // ------------------------------------------------------------------

  /** The status of the answer to a probe, if one came in time. */
  type Probe = Option<nat>

  predicate Answers(p: Probe) { p.Some? && 200 <= p.value < 500 }

  datatype Health = Up | Down

  predicate Answered(probes: seq<Probe>) { exists i :: 0 <= i < |probes| && Answers(probes[i]) }

  /** The changes a probe reveals: the first probe reveals none. */
  function Edge(probes: seq<Probe>, i: nat): Option<Health>
    requires i < |probes|
  {
    if i == 0 || Answers(probes[i]) == Answers(probes[i - 1]) then None
    else Some(if Answers(probes[i]) then Up else Down)
  }

  function Changes(log: seq<Option<Health>>): seq<Health> {
    if log == [] then []
    else Changes(log[..|log| - 1]) + (if log[|log| - 1].Some? then [log[|log| - 1].value] else [])
  }

  /** Up and down reports alternate, and the last one tells what the last probe saw. */
  lemma {:induction false} EdgesAlternate(probes: seq<Probe>, log: seq<Option<Health>>)
    requires |log| <= |probes| && forall i :: 0 <= i < |log| ==> log[i] == Edge(probes, i)
    ensures forall i :: 0 <= i < |Changes(log)| - 1 ==> Changes(log)[i] != Changes(log)[i + 1]
    ensures Changes(log) != [] ==>
              Changes(log)[|Changes(log)| - 1] == if Answers(probes[|log| - 1]) then Up else Down
    ensures Changes(log) == [] ==> forall i :: 0 <= i < |log| ==> Answers(probes[i]) == Answers(probes[0])
  {
    if log != [] {
      var rest := log[..|log| - 1];
      EdgesAlternate(probes, rest);
    }
  }

  lemma NoDownBeforeAnswer(probes: seq<Probe>, i: nat)
    requires i < |probes| && Edge(probes, i) == Some(Down)
    ensures Answered(probes[..i])
  {
    assert Answers(probes[..i][i - 1]);
  }

  lemma AnsweredSnoc(probes: seq<Probe>, n: nat)
    requires n < |probes|
    ensures Answered(probes[..n + 1]) <==> Answered(probes[..n]) || Answers(probes[n])
  {
    forall i | 0 <= i < n ensures probes[..n + 1][i] == probes[..n][i] {}
    assert probes[..n + 1][n] == probes[n];
  }

  /** `health_loop`: what is published after each probe (`log`) and the exported gauge,
      none while the trunk never answered. A trunk without an address is never probed. */
  method HealthLoop(dest: bool, probes: seq<Probe>) returns (log: seq<Option<Health>>, gauge: Option<bool>)
    ensures |log| == if dest then |probes| else 0
    ensures forall i :: 0 <= i < |log| ==> log[i] == Edge(probes, i)
    ensures var up := (p: Probe) => p.Some? && 200 <= p.value < 500;
            gauge == if dest && exists i :: 0 <= i < |probes| && up(probes[i]) then Some(up(probes[|probes| - 1]))
                     else None
  {
    log, gauge := [], None;
    if !dest { return; }
    var wasUp, everResponded := true, false;
    var n := 0;
    while n < |probes|
      invariant 0 <= n <= |probes| && |log| == n
      invariant forall i :: 0 <= i < n ==> log[i] == Edge(probes, i)
      invariant everResponded == Answered(probes[..n])
      invariant wasUp == (n == 0 || Answers(probes[n - 1]))
      invariant gauge == if everResponded then Some(wasUp) else None
    {
      var isUp := Answers(probes[n]);
      AnsweredSnoc(probes, n);
      if n > 0 && wasUp { assert Answers(probes[..n][n - 1]); }
      var report: Option<Health> := None;
      if isUp {
        gauge := Some(true);
        everResponded := true;
        if !wasUp { report := Some(Up); }
      } else if everResponded {
        gauge := Some(false);
        if wasUp { report := Some(Down); }
      }
      log := log + [report];
      wasUp := isUp;
      n := n + 1;
    }
    assert probes[..n] == probes;
  }
}
