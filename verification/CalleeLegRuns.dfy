/** Whole runs of a call: what the CSeq numbers, the session refreshes and the
    attempt list satisfy after any sequence of operations. */
module CalleeLegRuns {
  import opened Prelude
  import opened CalleeLeg

  datatype Event =
    | EAttach(callId: string, dest: string, transport: string)
    | EPush(raw: string, dest: string, transport: string, trunk: Option<string>)
    | EStoreInvite(raw: string, storedTrunk: string)
    | ERelayed(towardCallee: bool, cseq: Seq32)
    | EEstablish(fromRaw: string, toRaw: string, contact: Option<string>)
    | ESetInbound(fromRaw: string, contact: Option<string>)
    | ESetUri(uri: string)
    | EArm(now: nat, interval: Seq32, minSe: Seq32)
    | ETick(now: nat, localIp: string, localPort: nat, br: string)
    | EComplete(answered: nat)
    | EFail(now: nat, answered: nat, status: nat, peerMinSe: Option<Seq32>, delayMs: nat)
    | EByeCallee(localIp: string, localPort: nat)
    | EByeCaller(localIp: string, localPort: nat)
    | EAnswered
    | EAcked
    | EState(state: CallState)

  /** What an observer on the wire and in the manager sees. */
  datatype Entry =
    | Attached
    | Pushed(attempt: Attempt)
    | Relayed(cseq: nat)
    | RelayedToCaller(cseq: nat)
    | Refreshed(cseq: nat)
    | ByeToCallee(cseq: nat)
    | ByeToCaller(cseq: nat)
    | Consumed(cseq: nat)
    | Armed
    | Disabled

  function Next(c: Call, e: Event): Call {
    match e
    case EAttach(callId, dest, transport) => Attach(c, callId, dest, transport)
    case EPush(raw, dest, transport, trunk) => PushAttempt(c, raw, dest, transport, trunk)
    case EStoreInvite(raw, trunk) => c.(outboundInvite := Some(raw), trunk := Some(trunk))
    case ERelayed(toward, n) => NoteRelayed(c, toward, n)
    case EEstablish(f, t, contact) => Establish(c, f, t, contact)
    case ESetInbound(f, contact) => c.(inboundFrom := Some(f), inboundTarget := contact)
    case ESetUri(uri) => c.(calleeUri := Some(uri))
    case EArm(now, interval, minSe) => ArmTimer(c, now, interval, minSe)
    case ETick(now, ip, port, br) => Refresh(c, now, ip, port, br)
    case EComplete(n) => Complete(c, n)
    case EFail(now, n, status, minSe, delay) => Fail(c, now, n, status, minSe, delay)
    case EByeCallee(ip, port) => RelayByeCallee(c, ip, port)
    case EByeCaller(ip, port) => RelayByeCaller(c, ip, port)
    case EAnswered => Answered(c)
    case EAcked => Acked(c)
    case EState(s) => c.(state := s)
  }

  function Entries(c: Call, e: Event): seq<Entry> {
    match e
    case EAttach(_, _, _) => [Attached]
    case EPush(raw, dest, transport, trunk) => [Pushed(AttemptOf(raw, dest, transport, trunk))]
    case ERelayed(toward, n) =>
      if !toward then [RelayedToCaller(n)] else if c.outbound.Some? then [Relayed(n)] else []
    case EArm(_, _, _) => [Armed]
    case ETick(now, ip, port, br) => if RefreshDue(c, now, ip, port) then [Refreshed(NextOutboundCseq(c))] else []
    case EComplete(n) => if IsPending(c, n) then [Consumed(n)] else []
    case EFail(now, n, status, minSe, delay) =>
      if !IsPending(c, n) then []
      else if status == 405 || status == 501 || status == 420 then [Consumed(n), Disabled]
      else [Consumed(n)]
    case EByeCallee(ip, port) =>
      if DialogTowardCallee(c, ip, port).Some? then [ByeToCallee(NextOutboundCseq(c))] else []
    case EByeCaller(ip, port) =>
      if DialogTowardCaller(c, ip, port).Some? then [ByeToCaller(Succ(c.sentTowardCaller))] else []
    case _ => []
  }

  /** A call as `B2buaCall::new` makes it: no leg, no attempt, no timer. */
  predicate IsNew(c: Call) {
    c.outbound.None? && c.attempts == [] && c.timer.None? && c.calleeDest.None? && c.sentTowardCaller == 0
  }

  function Run(c: Call, evs: seq<Event>): Call {
    if evs == [] then c else Next(Run(c, evs[..|evs| - 1]), evs[|evs| - 1])
  }

  function Log(c: Call, evs: seq<Event>): seq<Entry> {
    if evs == [] then []
    else Log(c, evs[..|evs| - 1]) + Entries(Run(c, evs[..|evs| - 1]), evs[|evs| - 1])
  }

  // ------------------------------------------------------------------
  // CSeq discipline
  // ------------------------------------------------------------------

  predicate SbcToCallee(x: Entry) { x.Refreshed? || x.ByeToCallee? }

  /** The CSeq an entry put on the callee leg. */
  function CalleeCseq(x: Entry): Option<nat> {
    match x
    case Pushed(a) => Some(a.cseq)
    case Relayed(n) => Some(n)
    case Refreshed(n) => Some(n)
    case ByeToCallee(n) => Some(n)
    case _ => None
  }

  function CallerCseq(x: Entry): Option<nat> {
    match x
    case RelayedToCaller(n) => Some(n)
    case ByeToCaller(n) => Some(n)
    case _ => None
  }

  /** One leg attached, INVITE numbers that never fall, and no number that wrapped to 0. */
  ghost predicate Disciplined(log: seq<Entry>) {
    && (forall i, j :: 0 <= i < j < |log| ==> !(log[i].Attached? && log[j].Attached?))
    && (forall i, j :: 0 <= i < j < |log| && log[i].Pushed? && log[j].Pushed? ==>
        log[i].attempt.cseq <= log[j].attempt.cseq)
    && (forall i :: 0 <= i < |log| && SbcToCallee(log[i]) ==> log[i].cseq > 0)
    && (forall i :: 0 <= i < |log| && log[i].ByeToCaller? ==> log[i].cseq > 0)
  }

  /** Every request of the SBC is numbered above all that went before it on its leg. */
  ghost predicate StrictlyAbove(log: seq<Entry>) {
    && (forall i, j :: 0 <= i < j < |log| && SbcToCallee(log[j]) && CalleeCseq(log[i]).Some? ==>
          CalleeCseq(log[i]).value < log[j].cseq)
    && (forall i, j :: 0 <= i < j < |log| && log[j].ByeToCaller? && CallerCseq(log[i]).Some? ==>
          CallerCseq(log[i]).value < log[j].cseq)
  }

  /** The counters of the call bound everything in the log. */
  ghost predicate Counted(c: Call, log: seq<Entry>) {
    && (c.outbound.Some? <==> Attached in log)
    && (forall x :: x in log && CalleeCseq(x).Some? && !x.Pushed? ==>
          c.outbound.Some? && CalleeCseq(x).value <= LegCseq(c))
    && (forall x :: x in log && x.Pushed? ==> c.attempts != [] && x.attempt.cseq <= InviteCseq(c))
    && (forall x :: x in log && CallerCseq(x).Some? ==> CallerCseq(x).value <= c.sentTowardCaller)
  }

  /** A request numbered by the counters is above the whole log. */
  lemma NextIsAbove(c: Call, log: seq<Entry>)
    requires Counted(c, log) && NextOutboundCseq(c) > 0
    ensures forall x :: x in log && CalleeCseq(x).Some? ==> CalleeCseq(x).value < NextOutboundCseq(c)
    ensures LegCseq(c) < NextOutboundCseq(c) && InviteCseq(c) < NextOutboundCseq(c)
  {
    hide InviteCseq;
  }

  lemma AppendOne(log: seq<Entry>, x: Entry)
    requires StrictlyAbove(log)
    requires SbcToCallee(x) ==> forall y :: y in log && CalleeCseq(y).Some? ==> CalleeCseq(y).value < x.cseq
    requires x.ByeToCaller? ==> forall y :: y in log && CallerCseq(y).Some? ==> CallerCseq(y).value < x.cseq
    ensures StrictlyAbove(log + [x])
  {
  }

  lemma DisciplinedPrefix(log: seq<Entry>, more: seq<Entry>)
    requires Disciplined(log + more)
    ensures Disciplined(log)
    ensures forall x, y :: x in log && y in more && x.Pushed? && y.Pushed? ==> x.attempt.cseq <= y.attempt.cseq
    ensures forall x, y :: x in log && y in more ==> !(x.Attached? && y.Attached?)
    ensures forall y :: y in more && (SbcToCallee(y) || y.ByeToCaller?) ==> y.cseq > 0
  {
    var all := log + more;
    assert forall i :: 0 <= i < |log| ==> all[i] == log[i];
    assert forall i :: 0 <= i < |more| ==> all[|log| + i] == more[i];
  }

  /** Refresh ticks and BYEs toward the callee. */
  lemma {:induction false} StepOwn(c: Call, log: seq<Entry>, e: Event)
    requires e.ETick? || e.EByeCallee?
    requires Counted(c, log) && StrictlyAbove(log) && forall x :: x in Entries(c, e) && SbcToCallee(x) ==> x.cseq > 0
    ensures Counted(Next(c, e), log + Entries(c, e)) && StrictlyAbove(log + Entries(c, e))
  {
    hide DialogTowardCallee, RefreshText, SdpOf, StrictlyAbove, InviteCseq, Counted;
    var more := Entries(c, e);
    DialogNeedsLeg(c, e.localIp, e.localPort);
    if more != [] { StepSend(c, log, Next(c, e), more[0]); } else { assert log + more == log; }
  }

  /** One more entry, under counters that cover it and never fell. */
  lemma CountedMore(c: Call, d: Call, log: seq<Entry>, x: Entry)
    requires Counted(c, log) && d.attempts == c.attempts && InviteCseq(d) == InviteCseq(c) && !x.Pushed? && !x.Attached?
    requires (d.outbound.Some? <==> c.outbound.Some?) && LegCseq(c) <= LegCseq(d)
             && c.sentTowardCaller <= d.sentTowardCaller
    requires CalleeCseq(x).Some? ==> c.outbound.Some? && CalleeCseq(x).value <= LegCseq(d)
    requires CallerCseq(x).Some? ==> CallerCseq(x).value <= d.sentTowardCaller
    ensures Counted(d, log + [x])
  {
    hide InviteCseq, LegCseq, CalleeCseq, CallerCseq;
  }

  lemma ByeCallerAbove(c: Call, log: seq<Entry>)
    requires Counted(c, log) && StrictlyAbove(log) && Succ(c.sentTowardCaller) > 0
    ensures StrictlyAbove(log + [ByeToCaller(Succ(c.sentTowardCaller))])
            && c.sentTowardCaller < Succ(c.sentTowardCaller)
  {
    hide InviteCseq, LegCseq, StrictlyAbove;
    AppendOne(log, ByeToCaller(Succ(c.sentTowardCaller)));
  }

  lemma RelayedAbove(log: seq<Entry>, x: Entry)
    requires StrictlyAbove(log) && (x.Relayed? || x.RelayedToCaller?)
    ensures StrictlyAbove(log + [x])
  {
    hide StrictlyAbove;
    AppendOne(log, x);
  }

  /** Relayed requests and BYEs toward the caller. */
  lemma {:induction false} StepOther(c: Call, log: seq<Entry>, e: Event)
    requires e.EByeCaller? || e.ERelayed?
    requires Counted(c, log) && StrictlyAbove(log) && forall x :: x in Entries(c, e) && x.ByeToCaller? ==> x.cseq > 0
    ensures Counted(Next(c, e), log + Entries(c, e)) && StrictlyAbove(log + Entries(c, e))
  {
    hide DialogTowardCaller, StrictlyAbove, InviteCseq, Counted, Succ;
    var d, more := Next(c, e), Entries(c, e);
    KeptInvite(c, d);
    if more == [] {
      assert log + more == log;
    } else {
      if e.EByeCaller? { ByeCallerAbove(c, log); } else { RelayedAbove(log, more[0]); }
      CountedMore(c, d, log, more[0]);
    }
  }

  lemma {:induction false} StepCounted(c: Call, log: seq<Entry>, e: Event)
    requires Counted(c, log) && StrictlyAbove(log) && Disciplined(log + Entries(c, e))
    ensures Counted(Next(c, e), log + Entries(c, e)) && StrictlyAbove(log + Entries(c, e))
  {
    hide Counted, StrictlyAbove, Disciplined, AttemptOf;
    var more := Entries(c, e);
    DisciplinedPrefix(log, more);
    if e.EPush? {
      StepPush(c, log, e.raw, e.dest, e.transport, e.trunk);
    } else if e.ETick? || e.EByeCallee? {
      StepOwn(c, log, e);
    } else if e.EByeCaller? || e.ERelayed? {
      StepOther(c, log, e);
    } else {
      if e.EAttach? { assert more[0] == Attached && Attached in more; }
      StepQuiet(c, log, e);
    }
  }

  /** A request of the SBC toward the callee. */
  lemma StepSend(c: Call, log: seq<Entry>, c': Call, x: Entry)
    requires Counted(c, log) && StrictlyAbove(log) && c.outbound.Some?
    requires SbcToCallee(x) && x.cseq == NextOutboundCseq(c) && x.cseq > 0
    requires c'.attempts == c.attempts && c'.outboundInvite == c.outboundInvite
             && c'.sentTowardCaller == c.sentTowardCaller
    requires c'.outbound.Some? && LegCseq(c') == x.cseq
    ensures Counted(c', log + [x]) && StrictlyAbove(log + [x])
  {
    NextIsAbove(c, log);
    AppendOne(log, x);
    KeptInvite(c, c');
    hide InviteCseq, StrictlyAbove;
  }

  lemma DialogNeedsLeg(c: Call, ip: string, port: nat)
    ensures DialogTowardCallee(c, ip, port).Some? ==> c.outbound.Some?
  {
  }

  lemma KeptInvite(c: Call, d: Call)
    requires c.attempts == d.attempts && c.outboundInvite == d.outboundInvite
    ensures InviteCseq(c) == InviteCseq(d)
  {
    hide ParseCseqNumber;
  }

  lemma StepPush(c: Call, log: seq<Entry>, raw: string, dest: string, transport: string, trunk: Option<string>)
    requires Counted(c, log) && StrictlyAbove(log)
    requires forall x :: x in log && x.Pushed? ==> x.attempt.cseq <= AttemptOf(raw, dest, transport, trunk).cseq
    ensures var a := Pushed(AttemptOf(raw, dest, transport, trunk));
            Counted(PushAttempt(c, raw, dest, transport, trunk), log + [a]) && StrictlyAbove(log + [a])
  {
    hide AttemptOf;
    var c' := PushAttempt(c, raw, dest, transport, trunk);
    var a := AttemptOf(raw, dest, transport, trunk);
    var h := c.attempts + [a];
    assert Retained(h) != [] && Retained(h)[|Retained(h)| - 1] == a;
    assert InviteCseq(c') == a.cseq;
    AppendOne(log, Pushed(a));
  }

  predicate IsQuiet(e: Event) { !e.EPush? && !e.ETick? && !e.EByeCallee? && !e.EByeCaller? && !e.ERelayed? }

  /** The operations that put no number on either leg, and what they leave alone. */
  lemma QuietFrame(c: Call, e: Event)
    requires IsQuiet(e)
    ensures var d, more := Next(c, e), Entries(c, e);
            && d.attempts == c.attempts && d.sentTowardCaller == c.sentTowardCaller
            && (if e.EAttach? then d.outbound.Some?
                else LegCseq(d) == LegCseq(c) && (d.outbound.Some? <==> c.outbound.Some?))
            && |more| <= 2 && (forall x :: x in more ==> CalleeCseq(x).None? && CallerCseq(x).None? && !x.Pushed?)
            && (Attached in more <==> e.EAttach?)
  {
    hide Rejected, RefreshPeriodMs;
  }

  lemma StepQuiet(c: Call, log: seq<Entry>, e: Event)
    requires IsQuiet(e) && Counted(c, log) && StrictlyAbove(log)
    requires e.EAttach? ==> Attached !in log
    ensures Counted(Next(c, e), log + Entries(c, e)) && StrictlyAbove(log + Entries(c, e))
  {
    hide Next, Entries, StrictlyAbove, ParseCseqNumber, LegCseq, IsQuiet, CallerCseq, CalleeCseq;
    QuietFrame(c, e);
    QuietEntries(log, Entries(c, e));
  }

  lemma QuietEntries(log: seq<Entry>, more: seq<Entry>)
    requires StrictlyAbove(log) && |more| <= 2
    requires forall x :: x in more ==> CalleeCseq(x).None? && CallerCseq(x).None?
    ensures StrictlyAbove(log + more)
  {
    hide CalleeCseq, CallerCseq;
    if |more| == 0 {
      assert log + more == log;
    } else {
      Silent(more[0]);
      AppendOne(log, more[0]);
      if |more| == 2 {
        Silent(more[1]);
        AppendOne(log + [more[0]], more[1]);
        assert log + more == log + [more[0]] + [more[1]];
      } else {
        assert log + more == log + [more[0]];
      }
    }
  }

  lemma StepTracked(c: Call, log: seq<Entry>, e: Event)
    requires Tracked(c, log)
    ensures Tracked(Next(c, e), log + Entries(c, e))
  {
    hide Tracked, Next, Entries;
    if TimerEvent(e) { TimerTracked(c, log, e); } else { OtherTracked(c, log, e); }
  }

  lemma Silent(x: Entry)
    requires CalleeCseq(x).None? && CallerCseq(x).None?
    ensures !SbcToCallee(x) && !x.ByeToCaller?
  {
  }

  lemma {:induction false} RunCounted(c: Call, evs: seq<Event>)
    requires IsNew(c) && Disciplined(Log(c, evs))
    ensures Counted(Run(c, evs), Log(c, evs)) && StrictlyAbove(Log(c, evs))
  {
    hide Next, Entries, Counted, StrictlyAbove, Disciplined;
    if evs == [] {
      NewIsCounted(c);
    } else {
      var init := evs[..|evs| - 1];
      DisciplinedPrefix(Log(c, init), Entries(Run(c, init), evs[|evs| - 1]));
      RunCounted(c, init);
      StepCounted(Run(c, init), Log(c, init), evs[|evs| - 1]);
    }
  }

  lemma NewIsCounted(c: Call)
    requires IsNew(c)
    ensures Counted(c, []) && StrictlyAbove([])
  {
  }

  /** Section 12.2.1.1 of RFC 3261 over every run: each refresh re-INVITE and each
      BYE the SBC sends toward the callee is numbered above every INVITE attempt,
      every earlier request of the SBC and every relayed number of that leg; and
      its BYEs toward the caller are numbered above everything sent that way. */
  lemma CseqDiscipline(c: Call, evs: seq<Event>)
    requires IsNew(c) && Disciplined(Log(c, evs))
    ensures StrictlyAbove(Log(c, evs))
  {
    hide StrictlyAbove, Disciplined;
    RunCounted(c, evs);
  }

  // ------------------------------------------------------------------
  // Exactly-once session refresh
  // ------------------------------------------------------------------

  /** The refresh in flight, read off the log alone. */
  function InFlight(log: seq<Entry>): Option<nat> {
    if log == [] then None
    else
      match log[|log| - 1]
      case Refreshed(n) => Some(n)
      case Consumed(_) => None
      case Armed => None
      case Disabled => None
      case _ => InFlight(log[..|log| - 1])
  }

  /** The last refresh since the timer was armed, read off the log alone. */
  function LastRefresh(log: seq<Entry>): Option<nat> {
    if log == [] then None
    else
      match log[|log| - 1]
      case Refreshed(n) => Some(n)
      case Armed => None
      case Disabled => None
      case _ => LastRefresh(log[..|log| - 1])
  }

  /** A refresh is sent only when none is in flight, and an answer consumes only
      the refresh in flight. */
  ghost predicate OneAtATime(log: seq<Entry>) {
    && (forall j :: 0 <= j < |log| && log[j].Refreshed? ==> InFlight(log[..j]).None?)
    && (forall j :: 0 <= j < |log| && log[j].Consumed? ==> InFlight(log[..j]) == Some(log[j].cseq))
  }

  function PendingOf(c: Call): Option<nat> { if c.timer.None? then None else c.timer.value.pendingCseq }

  function LastOf(c: Call): Option<nat> {
    if c.timer.None? || c.timer.value.lastRefresh.None? then None else Some(c.timer.value.lastRefresh.value.0)
  }

  /** A pending number always has its raw text, and both are the last refresh. */
  predicate PendingHasText(c: Call) {
    c.timer.Some? && c.timer.value.pendingCseq.Some? ==>
      && c.timer.value.pendingRaw.Some?
      && c.timer.value.lastRefresh == Some((c.timer.value.pendingCseq.value, c.timer.value.pendingRaw.value))
  }

  ghost predicate Tracked(c: Call, log: seq<Entry>) {
    && PendingOf(c) == InFlight(log) && LastOf(c) == LastRefresh(log)
    && PendingHasText(c) && OneAtATime(log)
    && ((exists x :: x in log && x.Refreshed?) ==> c.calleeDest.Some?)
  }

  function InFlightAfter(log: seq<Entry>, x: Entry): Option<nat> {
    match x
    case Refreshed(n) => Some(n)
    case Consumed(_) => None
    case Armed => None
    case Disabled => None
    case _ => InFlight(log)
  }

  function LastRefreshAfter(log: seq<Entry>, x: Entry): Option<nat> {
    match x
    case Refreshed(n) => Some(n)
    case Armed => None
    case Disabled => None
    case _ => LastRefresh(log)
  }

  lemma AppendTracked(log: seq<Entry>, x: Entry)
    requires OneAtATime(log)
    requires x.Refreshed? ==> InFlight(log).None?
    requires x.Consumed? ==> InFlight(log) == Some(x.cseq)
    ensures OneAtATime(log + [x])
    ensures InFlight(log + [x]) == InFlightAfter(log, x)
    ensures LastRefresh(log + [x]) == LastRefreshAfter(log, x)
  {
    var l := log + [x];
    assert l[..|log|] == log;
    assert forall j :: 0 <= j < |log| ==> l[..j] == log[..j];
  }

  predicate TimerEvent(e: Event) { e.EArm? || e.ETick? || e.EComplete? || e.EFail? }

  lemma OtherTracked(c: Call, log: seq<Entry>, e: Event)
    requires Tracked(c, log) && !TimerEvent(e)
    ensures Tracked(Next(c, e), log + Entries(c, e))
  {
    hide AttemptOf, DialogTowardCallee, DialogTowardCaller, NextOutboundCseq, OneAtATime, InFlight, LastRefresh,
      Retained, Max32;
    var more := Entries(c, e);
    if more == [] {
      assert log + more == log;
    } else {
      AppendTracked(log, more[0]);
      assert log + more == log + [more[0]];
    }
  }

  lemma TimerTracked(c: Call, log: seq<Entry>, e: Event)
    requires Tracked(c, log) && TimerEvent(e)
    ensures Tracked(Next(c, e), log + Entries(c, e))
  {
    hide DialogTowardCallee, RefreshText, SdpOf, NextOutboundCseq, OneAtATime, InFlight, LastRefresh, BackoffSecs,
      Progress, RefreshPeriodMs, Max32;
    var more := Entries(c, e);
    if more == [] {
      assert log + more == log;
    } else {
      AppendTracked(log, more[0]);
      if |more| == 2 {
        AppendTracked(log + [more[0]], more[1]);
        assert log + more == log + [more[0]] + [more[1]];
      } else {
        assert log + more == log + [more[0]];
      }
    }
  }

  lemma {:induction false} RunTracked(c: Call, evs: seq<Event>)
    requires IsNew(c)
    ensures Tracked(Run(c, evs), Log(c, evs))
  {
    if evs != [] {
      hide Next, Entries, Tracked;
      var init := evs[..|evs| - 1];
      RunTracked(c, init);
      StepTracked(Run(c, init), Log(c, init), evs[|evs| - 1]);
    }
  }

  /** Over every run, whatever the answers: never two refreshes in flight, every
      consumed answer is the one in flight, and a pending number has its text. */
  lemma RefreshOneAtATime(c: Call, evs: seq<Event>)
    requires IsNew(c)
    ensures OneAtATime(Log(c, evs)) && PendingHasText(Run(c, evs)) && PendingOf(Run(c, evs)) == InFlight(Log(c, evs))
  {
    hide OneAtATime, PendingHasText, PendingOf, InFlight, LastOf, LastRefresh;
    RunTracked(c, evs);
  }

  /** What is in flight was sent, and nothing since consumed it. */
  lemma {:induction false} InFlightWasSent(log: seq<Entry>) returns (k: nat)
    requires InFlight(log).Some?
    ensures k < |log| && log[k] == Refreshed(InFlight(log).value)
    ensures forall j :: k < j < |log| ==> !log[j].Consumed?
  {
    var x := log[|log| - 1];
    if x.Refreshed? {
      k := |log| - 1;
    } else {
      k := InFlightWasSent(log[..|log| - 1]);
    }
  }

  /** Over every disciplined run, completion and failure together consume each
      refresh number at most once, and only after it was sent. */
  lemma {:induction false} ConsumedAtMostOnce(c: Call, evs: seq<Event>, i: nat, j: nat)
    requires IsNew(c) && Disciplined(Log(c, evs))
    requires i < j < |Log(c, evs)| && Log(c, evs)[i].Consumed? && Log(c, evs)[j].Consumed?
    ensures Log(c, evs)[i].cseq != Log(c, evs)[j].cseq
    ensures exists k :: 0 <= k < j && Log(c, evs)[k] == Refreshed(Log(c, evs)[j].cseq)
  {
    hide Disciplined, Run, Log, InFlight;
    var log := Log(c, evs);
    RefreshOneAtATime(c, evs);
    RunCounted(c, evs);
    var kj := InFlightWasSent(log[..j]);
    var ki := InFlightWasSent(log[..i]);
    assert log[kj] == Refreshed(log[j].cseq) && log[ki] == Refreshed(log[i].cseq);
    assert i <= kj by { assert log[..j][i] == log[i]; }
    assert SbcToCallee(log[kj]);
  }

  // ------------------------------------------------------------------
  // The attempt list
  // ------------------------------------------------------------------

  /** Every attempt ever pushed, oldest first. */
  function History(log: seq<Entry>): seq<Attempt> {
    if log == [] then []
    else History(log[..|log| - 1]) + (if log[|log| - 1].Pushed? then [log[|log| - 1].attempt] else [])
  }

  lemma {:induction false} HistoryConcat(a: seq<Entry>, b: seq<Entry>)
    ensures History(a + b) == History(a) + History(b)
  {
    if b == [] {
      assert a + b == a;
    } else {
      assert (a + b)[..|a + b| - 1] == a + b[..|b| - 1];
      HistoryConcat(a, b[..|b| - 1]);
    }
  }

  lemma RetainedStep(h: seq<Attempt>, a: Attempt)
    ensures Retained(Retained(h) + [a]) == Retained(h + [a])
  {
  }

  lemma {:induction false} StepHistory(c: Call, log: seq<Entry>, e: Event)
    requires c.attempts == Retained(History(log))
    ensures Next(c, e).attempts == Retained(History(log + Entries(c, e)))
  {
    hide AttemptOf, DialogTowardCallee, DialogTowardCaller, RefreshText, SdpOf, NextOutboundCseq, Retained, Rejected,
      History;
    var more := Entries(c, e);
    HistoryConcat(log, more);
    NewHistory(more);
    if e.EPush? {
      RetainedStep(History(log), AttemptOf(e.raw, e.dest, e.transport, e.trunk));
    } else {
      assert History(more) == [];
      assert History(log) + [] == History(log);
    }
  }

  lemma HistoryNone() ensures History([]) == [] {}

  lemma HistoryOne(x: Entry)
    ensures History([x]) == if x.Pushed? then [x.attempt] else []
  {
    assert [x][..0] == [];
  }

  lemma NewHistory(more: seq<Entry>)
    requires |more| <= 2
    ensures |more| == 1 && more[0].Pushed? ==> History(more) == [more[0].attempt]
    ensures (forall x :: x in more ==> !x.Pushed?) ==> History(more) == []
  {
    hide History;
    if |more| == 2 {
      assert more == [more[0]] + [more[1]];
      HistoryConcat([more[0]], [more[1]]);
      HistoryOne(more[0]);
      HistoryOne(more[1]);
    } else if |more| == 1 {
      assert more == [more[0]];
      HistoryOne(more[0]);
    } else {
      HistoryNone();
    }
  }

  lemma NewestEight(h: seq<Attempt>) ensures Retained(h) == if |h| <= 8 then h else h[|h| - 8..] {}

  /** In every run the call keeps exactly the newest eight attempts of its history. */
  lemma {:induction false} AttemptsAreRetained(c: Call, evs: seq<Event>)
    requires IsNew(c)
    ensures Run(c, evs).attempts == Retained(History(Log(c, evs)))
    ensures var h := History(Log(c, evs)); Run(c, evs).attempts == if |h| <= 8 then h else h[|h| - 8..]
  {
    NewestEight(History(Log(c, evs)));
    if evs != [] {
      hide Next, Entries, Retained;
      var init := evs[..|evs| - 1];
      AttemptsAreRetained(c, init);
      StepHistory(Run(c, init), Log(c, init), evs[|evs| - 1]);
    }
  }

  /** Branches that identify their attempt. */
  ghost predicate DistinctBranches(h: seq<Attempt>) {
    forall i, j :: 0 <= i < j < |h| && h[i].branch.Some? && h[j].branch.Some? ==> h[i].branch != h[j].branch
  }

  lemma {:induction false} BranchFinds(h: seq<Attempt>, k: nat, b: string)
    requires DistinctBranches(h) && k < |h| && h[k].branch == Some(b)
    ensures WithBranch(h, b) == Some(h[k])
  {
    if k < |h| - 1 {
      BranchFinds(h[..|h| - 1], k, b);
    }
  }

  /** The retained attempts but the newest, as a slice of the history. */
  lemma RetainedOlder(h: seq<Attempt>)
    requires h != [] && DistinctBranches(h)
    ensures var r := Retained(h);
            && |h| - |r| == Max(0, |h| - 8)
            && r[|r| - 1] == h[|h| - 1]
            && (var older := r[..|r| - 1]; forall i :: 0 <= i < |older| ==> older[i] == h[|h| - |r| + i])
            && DistinctBranches(r[..|r| - 1]) && DistinctBranches(h[..|h| - 1])
  {
    var r := Retained(h);
    var off, older := |h| - |r|, r[..|r| - 1];
    assert forall i :: 0 <= i < |older| ==> older[i] == h[off + i];
  }

  /** The eight retained attempts answer as the whole history would: a response
      with the branch of a retained attempt is Current exactly when that attempt is
      the newest, and otherwise Stale with exactly that attempt, whatever its CSeq. */
  lemma {:induction false} RetainedBranchDecides(h: seq<Attempt>, k: nat, b: string, cseq: nat)
    requires DistinctBranches(h) && |h| - 8 <= k < |h| && h[k].branch == Some(b)
    ensures Classify(Retained(h), Some(b), cseq) == if k == |h| - 1 then Current else Stale(Some(h[k]))
  {
    hide WithBranch, WithCseq;
    var r := Retained(h);
    var off := |h| - |r|;
    if k < |h| - 1 {
      assert r[|r| - 1] == h[|h| - 1];
      RetainedOlder(h);
      BranchFinds(r[..|r| - 1], k - off, b);
    }
  }

  /** The newest attempt with this CSeq is at `k`: none after it has it. */
  lemma {:induction false} CseqFinds(h: seq<Attempt>, k: nat, cseq: nat)
    requires k < |h| && h[k].cseq == cseq && forall j :: k < j < |h| ==> h[j].cseq != cseq
    ensures WithCseq(h, cseq) == Some(h[k])
  {
    if k < |h| - 1 { CseqFinds(h[..|h| - 1], k, cseq); }
  }

  lemma {:induction false} CseqAbsent(h: seq<Attempt>, cseq: nat)
    requires forall j :: 0 <= j < |h| ==> h[j].cseq != cseq
    ensures WithCseq(h, cseq).None?
  {
    if h != [] { CseqAbsent(h[..|h| - 1], cseq); }
  }

  /** Without a branch the verdict is the comparison with the newest attempt's CSeq; a
      lower one is attributed to the newest superseded attempt, among the retained,
      that had it, and to none when none had. */
  lemma {:induction false} NoBranchComparesCseq(h: seq<Attempt>, cseq: nat)
    requires h != []
    ensures var newest := h[|h| - 1].cseq;
            && (Classify(Retained(h), None, cseq).Current? <==> cseq == newest)
            && (cseq > newest ==> Classify(Retained(h), None, cseq) == Stale(None))
            && (cseq < newest ==>
                  && (forall k :: 0 <= k < |h| - 1 && |h| - 8 <= k && h[k].cseq == cseq
                                  && (forall j :: k < j < |h| - 1 ==> h[j].cseq != cseq) ==>
                        Classify(Retained(h), None, cseq) == Stale(Some(h[k])))
                  && ((forall k :: 0 <= k < |h| - 1 && |h| - 8 <= k ==> h[k].cseq != cseq) ==>
                        Classify(Retained(h), None, cseq) == Stale(None)))
  {
    hide WithCseq, WithBranch;
    var r := Retained(h);
    var off := |h| - |r|;
    var older := r[..|r| - 1];
    assert r[|r| - 1] == h[|h| - 1];
    assert forall i :: 0 <= i < |older| ==> older[i] == h[off + i];
    if cseq < h[|h| - 1].cseq {
      forall k | 0 <= k < |h| - 1 && |h| - 8 <= k && h[k].cseq == cseq
                 && forall j :: k < j < |h| - 1 ==> h[j].cseq != cseq
        ensures Classify(r, None, cseq) == Stale(Some(h[k]))
      {
        CseqFinds(older, k - off, cseq);
      }
      if forall k :: 0 <= k < |h| - 1 && |h| - 8 <= k ==> h[k].cseq != cseq { CseqAbsent(older, cseq); }
    }
  }

  lemma {:induction false} BranchAbsent(h: seq<Attempt>, b: string)
    requires forall a :: a in h ==> a.branch != Some(b)
    ensures WithBranch(h, b).None?
  {
  }

  /** Among the superseded attempts, the retained ones miss exactly the forgotten. */
  lemma {:induction false} OlderBranches(h: seq<Attempt>, b: string)
    requires h != [] && DistinctBranches(h) && h[|h| - 1].branch != Some(b)
    ensures var r := Retained(h);
            WithBranch(h[..|h| - 1], b).Some? <==>
              || WithBranch(r[..|r| - 1], b).Some?
              || (exists k :: 0 <= k < |h| - 8 && h[k].branch == Some(b))
    ensures (exists k :: 0 <= k < |h| - 8 && h[k].branch == Some(b)) ==>
              WithBranch(Retained(h)[..|Retained(h)| - 1], b).None?
  {
    hide WithBranch, Retained;
    RetainedOlder(h);
    var r := Retained(h);
    var off, older, rOlder := |h| - |r|, h[..|h| - 1], r[..|r| - 1];
    if k :| 0 <= k < |older| && older[k].branch == Some(b) {
      BranchFinds(older, k, b);
      if off <= k {
        assert rOlder[k - off] == h[k];
        BranchFinds(rOlder, k - off, b);
      } else {
        assert forall i :: 0 <= i < |rOlder| ==> rOlder[i].branch != Some(b);
        BranchAbsent(rOlder, b);
      }
    } else {
      BranchAbsent(older, b);
      BranchAbsent(rOlder, b);
    }
  }

  /** Exactly when forgetting an attempt shows: the retained list says Current and
      the whole history does not, only for the branch of a forgotten attempt with
      the newest attempt's CSeq. */
  lemma {:induction false} ForgettingShowsOnlyThere(h: seq<Attempt>, branch: Option<string>, cseq: nat)
    requires h != [] && DistinctBranches(h)
    ensures Classify(Retained(h), branch, cseq).Current? <==>
              || Classify(h, branch, cseq).Current?
              || (branch.Some? && cseq == h[|h| - 1].cseq
                  && exists k :: 0 <= k < |h| - 8 && h[k].branch == branch)
  {
    hide WithCseq, WithBranch, Retained;
    var r := Retained(h);
    RetainedOlder(h);
    if branch.Some? && h[|h| - 1].branch != branch {
      OlderBranches(h, branch.value);
    } else if branch.Some? {
      assert forall k :: 0 <= k < |h| - 8 ==> h[k].branch != branch;
    }
  }

  /** The `n`-th of a row of attempts with the same CSeq and distinct branches. */
  function SampleAttempt(n: nat): Attempt {
    Attempt("", Some(seq(n, _ => 'x')), 1, "peer", "UDP", None)
  }

  /** Where it shows: nine attempts with the same CSeq, and the late answer to the first,
      which the whole history knows to be superseded and the retained eight take for
      the answer to the ninth. */
  lemma NinthAttemptForgets()
    ensures var h := seq(9, n requires 0 <= n < 9 => SampleAttempt(n));
            && DistinctBranches(h)
            && Classify(h, h[0].branch, 1) == Stale(Some(h[0]))
            && Classify(Retained(h), h[0].branch, 1) == Current
  {
    var h := seq(9, n requires 0 <= n < 9 => SampleAttempt(n));
    forall i, j | 0 <= i < j < 9 ensures h[i].branch != h[j].branch {
      assert |h[i].branch.value| == i && |h[j].branch.value| == j;
    }
    hide WithBranch, WithCseq, SampleAttempt;
    BranchFinds(h[..8], 0, h[0].branch.value);
    RetainedOlder(h);
    ForgettingShowsOnlyThere(h, h[0].branch, 1);
  }

  /** Over every run and every continuation, a superseded attempt that is still
      retained is never taken for the live one again. */
  lemma {:induction false} SupersededNeverCurrent(c: Call, evs: seq<Event>, k: nat, b: string, cseq: nat)
    requires IsNew(c) && DistinctBranches(History(Log(c, evs)))
    requires |History(Log(c, evs))| - 8 <= k < |History(Log(c, evs))| - 1
    requires History(Log(c, evs))[k].branch == Some(b)
    ensures Classify(Run(c, evs).attempts, Some(b), cseq) == Stale(Some(History(Log(c, evs))[k]))
  {
    hide Run, Log, History, Classify, DistinctBranches, Retained;
    AttemptsAreRetained(c, evs);
    RetainedBranchDecides(History(Log(c, evs)), k, b, cseq);
  }

  // ------------------------------------------------------------------
  // Repeated answers to a refresh
  // ------------------------------------------------------------------

  lemma {:induction false} LastRefreshIs(log: seq<Entry>, i: nat)
    requires i < |log| && log[i].Refreshed?
    requires forall j :: i < j < |log| ==> !log[j].Refreshed? && !log[j].Armed? && !log[j].Disabled?
    ensures LastRefresh(log) == Some(log[i].cseq)
  {
    if i < |log| - 1 {
      LastRefreshIs(log[..|log| - 1], i);
    }
  }

  /** After a refresh, until the next refresh, a re-arming or the peer's refusal to
      refresh at all, every answer carrying its number is recognised as its own. */
  lemma {:induction false} RepeatedAnswerRecognised(c: Call, evs: seq<Event>, i: nat)
    requires IsNew(c) && i < |Log(c, evs)| && Log(c, evs)[i].Refreshed?
    requires forall j :: i < j < |Log(c, evs)| ==>
               !Log(c, evs)[j].Refreshed? && !Log(c, evs)[j].Armed? && !Log(c, evs)[j].Disabled?
    ensures IsRefreshDuplicate(Run(c, evs), Log(c, evs)[i].cseq)
  {
    hide Run, Log, InFlight, OneAtATime, LastRefresh;
    RunTracked(c, evs);
    LastRefreshIs(Log(c, evs), i);
    assert Log(c, evs)[i] in Log(c, evs);
  }

  lemma {:induction false} HistoryMember(log: seq<Entry>, a: Attempt)
    requires a in History(log)
    ensures Pushed(a) in log
  {
    var init := log[..|log| - 1];
    if a in History(init) {
      HistoryMember(init, a);
    } else {
      assert log[|log| - 1] == Pushed(a);
    }
  }

  /** An answer to a refresh, with no newer INVITE pushed and a branch no retained
      attempt has, is never taken for the INVITE in flight. */
  lemma {:induction false} RefreshAnswerNeverCurrent(c: Call, evs: seq<Event>, i: nat, branch: Option<string>)
    requires IsNew(c) && Disciplined(Log(c, evs))
    requires i < |Log(c, evs)| && Log(c, evs)[i].Refreshed?
    requires forall j :: i < j < |Log(c, evs)| ==> !Log(c, evs)[j].Pushed?
    requires Run(c, evs).attempts != []
    requires forall a :: a in Run(c, evs).attempts ==> a.branch != branch || branch.None?
    ensures Classify(Run(c, evs).attempts, branch, Log(c, evs)[i].cseq) == Stale(None)
  {
    hide Run, Log, Disciplined, History, CalleeCseq, WithCseq;
    var log, attempts := Log(c, evs), Run(c, evs).attempts;
    RunCounted(c, evs);
    AttemptsAreRetained(c, evs);
    var newest := attempts[|attempts| - 1];
    assert newest in History(log);
    HistoryMember(log, newest);
    var k :| 0 <= k < |log| && log[k] == Pushed(newest);
    assert k < i;
    PushedCseq(newest);
    assert SbcToCallee(log[i]);
    if branch.Some? { BranchAbsent(attempts[..|attempts| - 1], branch.value); }
  }

  lemma PushedCseq(a: Attempt)
    ensures CalleeCseq(Pushed(a)) == Some(a.cseq)
  {
  }
}
