/** The mutable call record of `b2bua.rs` and its locked operations. Every object carries
    the run that led to it, so the theorems about runs are theorems about the object:
    its methods promise them of what they return. */
module B2buaCall {
  import opened Prelude
  import opened Text
  import opened SipBuilder
  import opened InDialogRequests
  import opened InviteRenewal
  import opened CalleeLeg
  import opened CalleeLegRuns
  import opened CalleeLegReattach
  import opened CalleeLegWire
  import opened InviteNumbers

  /** Appending and dropping the first past eight keeps the newest eight. */
  lemma RetainedPush(h: seq<Attempt>, a: Attempt)
    requires |h| <= MAX_ATTEMPTS
    ensures Retained(h + [a]) == if |h + [a]| > MAX_ATTEMPTS then (h + [a])[1..] else h + [a]
  {
  }

  // ------------------------------------------------------------------
  // What the run of a call says about its next step
  // ------------------------------------------------------------------

  lemma RunSnoc(c: Call, evs: seq<Event>, e: Event)
    ensures Run(c, evs + [e]) == Next(Run(c, evs), e)
    ensures Log(c, evs + [e]) == Log(c, evs) + Entries(Run(c, evs), e)
  {
    hide Next, Entries;
    assert (evs + [e])[..|evs|] == evs;
  }

  /** A request of the SBC toward the callee is numbered above the whole log. */
  lemma SentAbove(c: Call, evs: seq<Event>, e: Event, x: Entry)
    requires IsNew(c) && Disciplined(Log(c, evs + [e])) && Entries(Run(c, evs), e) == [x] && SbcToCallee(x)
    ensures forall y :: y in Log(c, evs) && CalleeCseq(y).Some? ==> CalleeCseq(y).value < x.cseq
  {
    hide Run, Log, Entries, Disciplined, CalleeCseq;
    RunSnoc(c, evs, e);
    CseqDiscipline(c, evs + [e]);
    var log := Log(c, evs + [e]);
    assert log[|Log(c, evs)|] == x;
    assert forall i :: 0 <= i < |Log(c, evs)| ==> log[i] == Log(c, evs)[i];
  }

  /** A BYE toward the caller is numbered above everything sent that way. */
  lemma CallerAbove(c: Call, evs: seq<Event>, e: Event, x: Entry)
    requires IsNew(c) && Disciplined(Log(c, evs + [e])) && Entries(Run(c, evs), e) == [x] && x.ByeToCaller?
    ensures forall y :: y in Log(c, evs) && CallerCseq(y).Some? ==> CallerCseq(y).value < x.cseq
  {
    hide Run, Log, Entries, Disciplined, CallerCseq;
    RunSnoc(c, evs, e);
    CseqDiscipline(c, evs + [e]);
    var log := Log(c, evs + [e]);
    assert log[|Log(c, evs)|] == x;
    assert forall i :: 0 <= i < |Log(c, evs)| ==> log[i] == Log(c, evs)[i];
  }

  /** What is consumed was not consumed before. */
  lemma NeverConsumed(c: Call, evs: seq<Event>, e: Event, n: nat)
    requires IsNew(c) && Disciplined(Log(c, evs + [e]))
    requires Entries(Run(c, evs), e) != [] && Entries(Run(c, evs), e)[0] == Consumed(n)
    ensures Consumed(n) !in Log(c, evs)
  {
    hide Run, Log, Entries, Disciplined;
    RunSnoc(c, evs, e);
    var log, j := Log(c, evs + [e]), |Log(c, evs)|;
    assert log[j] == Consumed(n);
    forall i | 0 <= i < j ensures Log(c, evs)[i] != Consumed(n) {
      assert log[i] == Log(c, evs)[i];
      if log[i].Consumed? { ConsumedAtMostOnce(c, evs + [e], i, j); }
    }
  }

  lemma {:induction false} LastRefreshWasSent(log: seq<Entry>)
    requires LastRefresh(log).Some?
    ensures exists x :: x in log && x.Refreshed?
  {
    var x := log[|log| - 1];
    if x.Refreshed? { assert x in log; } else { LastRefreshWasSent(log[..|log| - 1]); }
  }

  /** Pending and last refresh of the call are those of its log. */
  lemma RefreshOfLog(c: Call, evs: seq<Event>, n: nat)
    requires IsNew(c)
    ensures OneAtATime(Log(c, evs))
    ensures IsPending(Run(c, evs), n) <==> InFlight(Log(c, evs)) == Some(n)
    ensures IsRefreshDuplicate(Run(c, evs), n) <==> LastRefresh(Log(c, evs)) == Some(n)
  {
    hide Run, Log, InFlight, OneAtATime, LastRefresh;
    RunTracked(c, evs);
    if LastRefresh(Log(c, evs)).Some? { LastRefreshWasSent(Log(c, evs)); }
  }

  lemma DueMeansNoneInFlight(c: Call, evs: seq<Event>, now: nat, ip: string, port: nat)
    requires IsNew(c) && RefreshDue(Run(c, evs), now, ip, port)
    ensures InFlight(Log(c, evs)).None?
  {
    hide Run, Log, InFlight, OneAtATime, LastRefresh;
    RunTracked(c, evs);
  }

  lemma HistoryGrows(c: Call, evs: seq<Event>, e: Event)
    requires e.EPush?
    ensures History(Log(c, evs + [e]))
            == History(Log(c, evs)) + [AttemptOf(e.raw, e.dest, e.transport, e.trunk)]
  {
    hide Run, Log, History, AttemptOf;
    RunSnoc(c, evs, e);
    var x := Pushed(AttemptOf(e.raw, e.dest, e.transport, e.trunk));
    HistoryConcat(Log(c, evs), [x]);
    HistoryOne(x);
  }

  /** The verdict on a response, read off everything ever pushed. */
  ghost predicate JustVerdict(h: seq<Attempt>, branch: Option<string>, cseq: nat, v: Verdict) {
    && (h == [] ==> v == Current)
    && (h != [] && branch.None? ==> (v.Current? <==> cseq == h[|h| - 1].cseq))
    && (DistinctBranches(h) && branch.Some? ==>
          && (forall k :: 0 <= k < |h| && |h| - 8 <= k && h[k].branch == branch ==>
                v == if k == |h| - 1 then Current else Stale(Some(h[k])))
          && (h != [] && cseq > h[|h| - 1].cseq && (forall k :: 0 <= k < |h| ==> h[k].branch != branch) ==>
                v == Stale(None)))
  }

  lemma VerdictIsJust(h: seq<Attempt>, branch: Option<string>, cseq: nat)
    ensures JustVerdict(h, branch, cseq, Classify(Retained(h), branch, cseq))
  {
    hide WithBranch, WithCseq, Retained, DistinctBranches;
    if h == [] {
      NothingRetained();
    } else {
      LastRetained(h);
      if branch.None? {
        NoBranchComparesCseq(h, cseq);
      } else if DistinctBranches(h) {
        forall k | 0 <= k < |h| && |h| - 8 <= k && h[k].branch == branch
          ensures Classify(Retained(h), branch, cseq) == if k == |h| - 1 then Current else Stale(Some(h[k]))
        {
          RetainedBranchDecides(h, k, branch.value, cseq);
        }
        if forall k :: 0 <= k < |h| ==> h[k].branch != branch {
          assert forall a :: a in h ==> a.branch != branch;
          BranchAbsent(Retained(h)[..|Retained(h)| - 1], branch.value);
        }
      }
    }
  }

  lemma NothingRetained() ensures Retained([]) == [] {}

  lemma LastRetained(h: seq<Attempt>)
    requires h != []
    ensures Retained(h) != [] && Retained(h)[|Retained(h)| - 1] == h[|h| - 1]
    ensures forall a :: a in Retained(h) ==> a in h
  {
  }

  // ------------------------------------------------------------------
  // The record
  // ------------------------------------------------------------------

  class CallRecord {
    var state: CallState
    var inboundEstablished: bool
    var inboundCallId: string
    var inboundFrom: Option<string>
    var inboundTo: Option<string>
    var inboundTarget: Option<string>
    var callerSource: string
    var callerTransport: string
    var sentTowardCaller: Seq32
    var outbound: Option<Leg>
    var attempts: seq<Attempt>
    var outboundInvite: Option<string>
    var trunk: Option<string>
    var calleeDest: Option<string>
    var calleeTransport: string
    var calleeUri: Option<string>
    var timer: Option<Timer>
    ghost const initial: Call
    ghost var trace: seq<Event>

    /** The record is what its run made of a new call. */
    ghost predicate Valid()
      reads this
    {
      IsNew(initial) && View() == Run(initial, trace)
    }

    function View(): Call
      reads this
    {
      Call(state, inboundEstablished, inboundCallId, inboundFrom, inboundTo, inboundTarget, callerSource,
           callerTransport,
           sentTowardCaller, outbound, attempts, outboundInvite, trunk, calleeDest, calleeTransport, calleeUri, timer)
    }

    /** Everything sent, relayed, pushed and consumed so far. */
    ghost function Hist(): seq<Entry>
      reads this
    {
      Log(initial, trace)
    }

    constructor (callId: string, source: string, transport: string)
      ensures Valid() && Hist() == [] && inboundCallId == callId
    {
      state := Initiated;
      inboundEstablished, inboundCallId, inboundFrom, inboundTo, inboundTarget := false, callId, None, None, None;
      callerSource, callerTransport, sentTowardCaller := source, transport, 0;
      outbound, attempts, outboundInvite, trunk := None, [], None, None;
      calleeDest, calleeTransport, calleeUri, timer := None, "UDP", None, None;
      initial := Call(Initiated, false, callId, None, None, None, source, transport, 0, None, [], None, None, None,
                      "UDP", None, None);
      trace := [];
    }

    ghost method Did(e: Event)
      modifies this`trace
      ensures trace == old(trace) + [e] && View() == old(View())
      ensures Run(initial, trace) == Next(Run(initial, old(trace)), e)
      ensures Hist() == old(Hist()) + Entries(Run(initial, old(trace)), e)
    {
      hide Run, Log, Next, Entries;
      RunSnoc(initial, trace, e);
      trace := trace + [e];
    }

    /** A new leg. Its counter starts at 1, so the next number of the SBC is above all it
        ever sent exactly when the old counter had not passed the live INVITE's. */
    method AttachOutbound(callId: string, dest: string, transport: string)
      requires Valid()
      modifies this
      ensures Valid() && trace == old(trace) + [EAttach(callId, dest, transport)]
      ensures Hist() == old(Hist()) + [Attached] && outbound == Some(Leg(callId, 1, false, None, None, None))
      ensures calleeDest == Some(dest) && calleeTransport == transport
      ensures Disciplined(old(Hist())) && InviteCseq(old(View())) < U32 - 1 ==>
                ((forall x :: x in old(Hist()) && CalleeCseq(x).Some? ==>
                    CalleeCseq(x).value < NextOutboundCseq(View())) <==>
                 LegCseq(old(View())) <= Max32(InviteCseq(old(View())), 1))
    {
      hide Run, Log, Disciplined, InviteCseq, CalleeCseq, NextOutboundCseq;
      if Disciplined(Hist()) && InviteCseq(View()) < U32 - 1 {
        ReattachSafeIff(initial, trace, callId, dest, transport);
      }
      outbound := Some(Leg(callId, 1, false, None, None, None));
      calleeDest := Some(dest);
      calleeTransport := transport;
      Did(EAttach(callId, dest, transport));
    }

    method NoteRelayedCseq(towardCallee: bool, cseq: Seq32)
      requires Valid()
      modifies this
      ensures Valid() && trace == old(trace) + [ERelayed(towardCallee, cseq)]
      ensures outbound == if towardCallee && old(outbound).Some? && old(outbound).value.cseq < cseq
                          then Some(old(outbound).value.(cseq := cseq)) else old(outbound)
      ensures sentTowardCaller == if !towardCallee && old(sentTowardCaller) < cseq then cseq else old(sentTowardCaller)
    {
      hide Run, Log;
      if towardCallee {
        if outbound.Some? {
          var leg := outbound.value;
          outbound := Some(leg.(cseq := if leg.cseq < cseq then cseq else leg.cseq));
        }
      } else if sentTowardCaller < cseq {
        sentTowardCaller := cseq;
      }
      Did(ERelayed(towardCallee, cseq));
    }

    /** The history of attempts grows by this one, which says what its text says, and the
        record keeps its newest eight. */
    method PushInviteAttempt(raw: string, dest: string, transport: string, trunkId: Option<string>)
      requires Valid()
      modifies this
      ensures Valid() && trace == old(trace) + [EPush(raw, dest, transport, trunkId)]
      ensures History(Hist()) == old(History(Hist())) + [AttemptOf(raw, dest, transport, trunkId)]
      ensures attempts == Retained(History(Hist())) && 1 <= |attempts| <= 8
      ensures var a := attempts[|attempts| - 1];
              SaysItsText(a) && a.raw == raw && a.dest == dest && a.transport == transport && a.trunk == trunkId
      ensures outboundInvite == Some(raw) && calleeDest == Some(dest) && calleeTransport == transport
      ensures trunk == if trunkId.Some? then trunkId else old(trunk)
    {
      hide Run, Log, AttemptOf, Retained, History, PushAttempt, SaysItsText;
      AttemptSaysItsText(raw, dest, transport, trunkId);
      PushedCall(View(), raw, dest, transport, trunkId);
      ghost var e := EPush(raw, dest, transport, trunkId);
      AttemptsAreRetained(initial, trace);
      RetainedLength(History(Hist()));
      HistoryGrows(initial, trace, e);
      KeepAttempt(raw, dest, transport, trunkId);
      Did(e);
      AttemptsAreRetained(initial, trace);
      RetainedLength(History(Hist()));
    }

    method KeepAttempt(raw: string, dest: string, transport: string, trunkId: Option<string>)
      requires |attempts| <= MAX_ATTEMPTS
      modifies this`outboundInvite, this`trunk, this`calleeDest, this`calleeTransport, this`attempts
      ensures View() == PushAttempt(old(View()), raw, dest, transport, trunkId)
    {
      hide AttemptOf, Retained;
      var attempt := AttemptOf(raw, dest, transport, trunkId);
      RetainedPush(attempts, attempt);
      var kept := attempts + [attempt];
      if |kept| > MAX_ATTEMPTS { kept := kept[1..]; }
      assert kept == Retained(attempts + [attempt]);
      var chosen := if trunkId.Some? then trunkId else trunk;
      outboundInvite, trunk, calleeDest, calleeTransport, attempts := Some(raw), chosen, Some(dest), transport, kept;
    }

    /** A fresh timer: nothing is pending or remembered, and a refresh of a call that can be
        refreshed is due exactly from half the interval on, or from 30 seconds. */
    method SetSessionTimer(now: nat, interval: Seq32, minSe: Seq32)
      requires Valid()
      modifies this
      ensures Valid() && trace == old(trace) + [EArm(now, interval, minSe)]
      ensures timer.Some? && timer.value.interval == interval && timer.value.minSe == minSe && timer.value.failures == 0
      ensures forall later: nat, ip, port: nat :: RefreshDue(View(), later, ip, port) <==>
                  Refreshable(View()) && later >= now + 1000 * (if interval / 2 < 30 then 30 else interval / 2)
      ensures InFlight(Hist()).None? && LastRefresh(Hist()).None?
      ensures forall n :: !IsPending(View(), n) && !IsRefreshDuplicate(View(), n)
    {
      hide Run, Log, DialogTowardCallee, SdpOf, RefreshDue, Refreshable;
      forall later: nat, ip, port: nat
        ensures RefreshDue(ArmTimer(View(), now, interval, minSe), later, ip, port) <==>
                  Refreshable(View()) && later >= now + 1000 * (if interval / 2 < 30 then 30 else interval / 2)
      {
        DueWhen(View(), now, interval, minSe, later, ip, port);
      }
      SameRefreshable(View(), ArmTimer(View(), now, interval, minSe));
      timer := Some(Timer(interval, minSe, now + RefreshPeriodMs(interval), None, None, None, 0));
      Did(EArm(now, interval, minSe));
      assert Hist()[|Hist()| - 1] == Armed;
    }

    /** The refresh tick for this call: the re-INVITE to send, if one is due. It is sent
        only when none is in flight, numbered above everything on the leg and above what
        every pushed INVITE carries on the wire, and carries that number itself. */
    method DueSessionRefresh(now: nat, localIp: string, localPort: nat, br: string) returns (reinvite: Option<string>)
      requires Valid()
      modifies this
      ensures Valid() && trace == old(trace) + [ETick(now, localIp, localPort, br)]
      ensures reinvite.Some? <==> RefreshDue(old(View()), now, localIp, localPort)
      ensures reinvite.Some? ==> reinvite.value == RefreshText(old(View()), localIp, localPort, br)
      ensures reinvite.Some? ==>
                && InFlight(old(Hist())).None?
                && Hist() == old(Hist()) + [Refreshed(NextOutboundCseq(old(View())))]
                && (Disciplined(Hist()) ==>
                      && AboveWire(old(Hist()), NextOutboundCseq(old(View())))
                      && forall x :: x in old(Hist()) && CalleeCseq(x).Some? ==>
                        CalleeCseq(x).value < NextOutboundCseq(old(View())))
                && (CleanCallee(old(View()), localIp) && '\r' !in br ==>
                      CarriesCseq(reinvite.value, NextOutboundCseq(old(View())), "INVITE"))
      ensures reinvite.None? ==> View() == old(View()) && Hist() == old(Hist())
    {
      hide Run, Log, Refresh, RefreshDue, RefreshText, Disciplined, InFlight, CalleeCseq, NextOutboundCseq, AboveWire,
        CleanCallee, CarriesCseq;
      ghost var e := ETick(now, localIp, localPort, br);
      ghost var c, before := View(), trace;
      if RefreshDue(View(), now, localIp, localPort) {
        DueMeansNoneInFlight(initial, trace, now, localIp, localPort);
        DueHasTimer(View(), now, localIp, localPort);
        if CleanCallee(View(), localIp) && '\r' !in br { RefreshReads(View(), localIp, localPort, br); }
      }
      reinvite := RefreshTimer(now, localIp, localPort, br);
      Did(e);
      if reinvite.Some? && Disciplined(Hist()) {
        SentAbove(initial, before, e, Refreshed(NextOutboundCseq(c)));
        AboveWhatWasSent(initial, before, NextOutboundCseq(c));
      }
      assert reinvite.None? ==> old(Hist()) + [] == old(Hist());
    }

    /** The guards of the tick, in the program's order, and the re-INVITE. */
    method RefreshTimer(now: nat, localIp: string, localPort: nat, br: string) returns (reinvite: Option<string>)
      modifies this`outbound, this`timer
      ensures View() == Refresh(old(View()), now, localIp, localPort, br)
      ensures reinvite.Some? <==> RefreshDue(old(View()), now, localIp, localPort)
      ensures reinvite.Some? ==> reinvite.value == RefreshText(old(View()), localIp, localPort, br)
      ensures reinvite.None? ==> View() == old(View())
    {
      hide BuildReinvite, SdpOf, InviteCseq, Print;
      if state != Connected || calleeDest.None? || timer.None? { return None; }
      var st := timer.value;
      if st.nextRefreshAt > now || st.pendingCseq.Some? { return None; }
      var dialog := DialogTowardCallee(View(), localIp, localPort);
      if dialog.None? { return None; }
      var sdp := SdpOf(View());
      if sdp == "" { return None; }
      var n := NextOutboundCseq(View());
      var text := BuildReinvite(dialog.value.(cseq := n), sdp, "<sip:sbc@" + localIp + ":" + Print(localPort) + ">",
                                st.interval, st.minSe, br);
      outbound := Some(outbound.value.(cseq := n));
      timer := Some(st.(pendingCseq := Some(n), pendingRaw := Some(text), lastRefresh := Some((n, text)),
                        nextRefreshAt := now + RefreshPeriodMs(st.interval)));
      return Some(text);
    }

    /** A 2xx: the ACK to send when `cseq` is the refresh in flight. */
    method CompleteSessionRefresh(cseq: Seq32, localIp: string, localPort: nat,
                                  br: string) returns (ack: Option<string>)
      requires Valid()
      modifies this
      ensures Valid() && trace == old(trace) + [EComplete(cseq)]
      ensures IsPending(old(View()), cseq) <==> InFlight(old(Hist())) == Some(cseq)
      ensures InFlight(old(Hist())) == Some(cseq) && Disciplined(Hist()) ==> Consumed(cseq) !in old(Hist())
      ensures InFlight(old(Hist())) != Some(cseq) ==> View() == old(View()) && ack == None
      ensures InFlight(Hist()) != Some(cseq)
      ensures InFlight(old(Hist())) == Some(cseq) ==>
                && old(timer).Some?
                && timer == Some(old(timer).value.(pendingCseq := None, pendingRaw := None, failures := 0))
      ensures var d := DialogTowardCallee(View(), localIp, localPort);
              ack == if InFlight(old(Hist())) == Some(cseq) && d.Some? && calleeDest.Some?
                     then Some(BuildAckFor2xx(d.value, cseq, br)) else None
    {
      hide Run, Log, BuildAckFor2xx, Disciplined, InFlight, LastRefresh, OneAtATime;
      RefreshOfLog(initial, trace, cseq);
      ghost var pending := IsPending(View(), cseq);
      ghost var before, e := trace, EComplete(cseq);
      ack := None;
      if timer.Some? && timer.value.pendingCseq == Some(cseq) {
        timer := Some(timer.value.(pendingCseq := None, pendingRaw := None, failures := 0));
        var d := DialogTowardCallee(View(), localIp, localPort);
        if d.Some? && calleeDest.Some? { ack := Some(BuildAckFor2xx(d.value, cseq, br)); }
      }
      Did(e);
      if pending && Disciplined(Hist()) { NeverConsumed(initial, before, e, cseq); }
      RefreshOfLog(initial, trace, cseq);
    }

    /** A non-2xx: whether the answer was ours, the ACK to send, and whether the
        dialog is gone. */
    method FailSessionRefresh(now: nat, cseq: Seq32, status: nat, minSe422: Option<Seq32>, responseTo: string,
                              delayMs: nat)
        returns (taken: bool, ack: Option<string>, dialogGone: bool)
      requires Valid()
      modifies this
      ensures Valid() && trace == old(trace) + [EFail(now, cseq, status, minSe422, delayMs)]
      ensures taken <==> InFlight(old(Hist())) == Some(cseq)
      ensures taken ==> old(timer).Some?
      ensures taken && Disciplined(Hist()) ==> Consumed(cseq) !in old(Hist())
      ensures !taken ==> View() == old(View())
      ensures InFlight(Hist()) != Some(cseq)
      ensures dialogGone <==> taken && DialogGone(old(timer).value, status, minSe422)
      ensures ack == if taken && old(timer).value.pendingRaw.Some?
                     then BuildAckForNon2xx(old(timer).value.pendingRaw.value, responseTo) else None
    {
      hide Run, Log, BuildAckForNon2xx, BackoffSecs, Disciplined, InFlight, LastRefresh, OneAtATime;
      RefreshOfLog(initial, trace, cseq);
      ghost var before, e := trace, EFail(now, cseq, status, minSe422, delayMs);
      taken, ack, dialogGone := false, None, false;
      if timer.Some? && timer.value.pendingCseq == Some(cseq) {
        taken := true;
        if timer.value.pendingRaw.Some? { ack := BuildAckForNon2xx(timer.value.pendingRaw.value, responseTo); }
        dialogGone := RejectTimer(now, status, minSe422, delayMs);
      }
      Did(e);
      if taken && Disciplined(Hist()) { NeverConsumed(initial, before, e, cseq); }
      RefreshOfLog(initial, trace, cseq);
    }

    /** The timer after a rejection: 491 tries again after a random delay, 405, 501 and 420
        end the refreshing, and any other counts. */
    method RejectTimer(now: nat, status: nat, minSe422: Option<Seq32>, delayMs: nat) returns (dialogGone: bool)
      requires timer.Some? && timer.value.pendingCseq.Some?
      modifies this`timer
      ensures View() == Fail(old(View()), now, old(timer).value.pendingCseq.value, status, minSe422, delayMs)
      ensures timer.None? <==> status == 405 || status == 501 || status == 420
      ensures status == 491 ==>
                timer == Some(old(timer).value.(pendingCseq := None, pendingRaw := None,
                                                nextRefreshAt := now + delayMs))
      ensures dialogGone <==> DialogGone(old(timer).value, status, minSe422)
    {
      hide BackoffSecs;
      dialogGone := false;
      var st := timer.value.(pendingCseq := None, pendingRaw := None);
      if status == 491 {
        timer := Some(st.(nextRefreshAt := now + delayMs));
        return;
      }
      if status == 405 || status == 501 || status == 420 {
        timer := None;
        return;
      }
      var progressed := status == 422 && minSe422.Some? && minSe422.value > st.interval;
      if status == 422 && minSe422.Some? {
        st := st.(interval := Max32(st.interval, minSe422.value), minSe := Max32(st.minSe, minSe422.value));
      }
      if progressed { st := st.(failures := 0); } else { st := st.(failures := st.failures + 1); }
      dialogGone := status == 408 || status == 481 || st.failures >= MAX_REFRESH_FAILURES;
      st := st.(nextRefreshAt := now + 1000 * BackoffSecs(st));
      timer := Some(st);
    }

    /** The BYE of the SBC toward the callee, numbered above everything on the leg and above
        what every pushed INVITE carries on the wire. */
    method BuildRelayByeTowardCallee(localIp: string, localPort: nat, reason: Option<string>, br: string)
        returns (bye: Option<string>)
      requires Valid()
      modifies this
      ensures Valid() && trace == old(trace) + [EByeCallee(localIp, localPort)]
      ensures var d := DialogTowardCallee(old(View()), localIp, localPort);
              bye == if d.None? then None
                     else Some(BuildBye(d.value.(cseq := NextOutboundCseq(old(View()))), reason, br))
      ensures bye.Some? ==>
                && Hist() == old(Hist()) + [ByeToCallee(NextOutboundCseq(old(View())))]
                && (Disciplined(Hist()) ==>
                      && AboveWire(old(Hist()), NextOutboundCseq(old(View())))
                      && forall x :: x in old(Hist()) && CalleeCseq(x).Some? ==>
                        CalleeCseq(x).value < NextOutboundCseq(old(View())))
    {
      hide Run, Log, BuildBye, InviteCseq, Disciplined, CalleeCseq, AboveWire;
      ghost var c, before, e := View(), trace, EByeCallee(localIp, localPort);
      bye := None;
      var d := DialogTowardCallee(View(), localIp, localPort);
      if d.Some? {
        var n := NextOutboundCseq(View());
        outbound := Some(outbound.value.(cseq := n));
        bye := Some(BuildBye(d.value.(cseq := n), reason, br));
      }
      Did(e);
      if bye.Some? && Disciplined(Hist()) {
        SentAbove(initial, before, e, ByeToCallee(NextOutboundCseq(c)));
        AboveWhatWasSent(initial, before, NextOutboundCseq(c));
      }
    }

    /** The BYE of the SBC toward the caller, numbered above everything sent that way. */
    method BuildRelayByeTowardCaller(localIp: string, localPort: nat, reason: Option<string>, br: string)
        returns (bye: Option<string>)
      requires Valid()
      modifies this
      ensures Valid() && trace == old(trace) + [EByeCaller(localIp, localPort)]
      ensures var d := DialogTowardCaller(old(View()), localIp, localPort);
              bye == if d.None? then None else Some(BuildBye(d.value, reason, br))
      ensures bye.Some? ==>
                && Hist() == old(Hist()) + [ByeToCaller(Succ(old(sentTowardCaller)))]
                && (Disciplined(Hist()) ==>
                      forall x :: x in old(Hist()) && CallerCseq(x).Some? ==>
                        CallerCseq(x).value < Succ(old(sentTowardCaller)))
    {
      hide Run, Log, BuildBye, Disciplined, CallerCseq;
      ghost var n, before, e := Succ(sentTowardCaller), trace, EByeCaller(localIp, localPort);
      bye := None;
      var d := DialogTowardCaller(View(), localIp, localPort);
      if d.Some? {
        sentTowardCaller := d.value.cseq;
        bye := Some(BuildBye(d.value, reason, br));
      }
      Did(e);
      if bye.Some? && Disciplined(Hist()) { CallerAbove(initial, before, e, ByeToCaller(n)); }
    }

    /** Attribute a callee-leg response to an attempt: the verdict is just with respect to
        everything ever pushed on this call. */
    method ClassifyInviteResponse(branch: Option<string>, cseq: Seq32) returns (v: Verdict)
      requires Valid()
      ensures JustVerdict(History(Hist()), branch, cseq, v)
      ensures v == Classify(attempts, branch, cseq)
    {
      hide Run, Log, History, JustVerdict, Retained;
      AttemptsAreRetained(initial, trace);
      VerdictIsJust(History(Hist()), branch, cseq);
      if attempts == [] { return Current; }
      var current := attempts[|attempts| - 1];
      var older := attempts[..|attempts| - 1];
      if branch.Some? {
        if current.branch == branch { return Current; }
        var found := FindByBranch(older, branch.value);
        if found.Some? { return Stale(found); }
      }
      if cseq > current.cseq { return Stale(None); }
      if branch.Some? && current.branch.Some? && cseq == current.cseq { return Current; }
      if cseq < current.cseq {
        var found := FindByCseq(older, cseq);
        return Stale(found);
      }
      return Current;
    }

    /** A repeated answer to the last refresh: the ACK to send again. */
    method RefreshDuplicateAck(cseq: Seq32, status: nat, responseTo: string, localIp: string, localPort: nat,
                               br: string)
        returns (known: bool, ack: Option<string>)
      requires Valid()
      ensures known <==> LastRefresh(Hist()) == Some(cseq)
      ensures known ==> timer.Some? && timer.value.lastRefresh.Some?
      ensures known && 100 <= status <= 199 ==> ack.None?
      ensures known && 200 <= status <= 299 ==>
                var d := DialogTowardCallee(View(), localIp, localPort);
                ack == if d.Some? then Some(BuildAckFor2xx(d.value, cseq, br)) else None
      ensures known && (status < 100 || status > 299) ==>
                ack == BuildAckForNon2xx(timer.value.lastRefresh.value.1, responseTo)
    {
      hide Run, Log, BuildAckForNon2xx, BuildAckFor2xx, InFlight, LastRefresh, OneAtATime;
      RefreshOfLog(initial, trace, cseq);
      known, ack := false, None;
      if timer.None? || timer.value.lastRefresh.None? || timer.value.lastRefresh.value.0 != cseq { return; }
      if 100 <= status <= 199 {
      } else if 200 <= status <= 299 {
        var d := DialogTowardCallee(View(), localIp, localPort);
        if d.Some? { ack := Some(BuildAckFor2xx(d.value, cseq, br)); }
      } else {
        ack := BuildAckForNon2xx(timer.value.lastRefresh.value.1, responseTo);
      }
      known := calleeDest.Some?;
    }

    // --- the setters that put nothing on the wire ---

    method StoreOutboundInvite(raw: string, trunkId: string)
      requires Valid()
      modifies this
      ensures Valid() && trace == old(trace) + [EStoreInvite(raw, trunkId)] && Hist() == old(Hist())
      ensures outboundInvite == Some(raw) && trunk == Some(trunkId)
    {
      hide Run, Log;
      outboundInvite, trunk := Some(raw), Some(trunkId);
      Did(EStoreInvite(raw, trunkId));
    }

    method SetInboundDialog(fromRaw: string, contact: Option<string>)
      requires Valid()
      modifies this
      ensures Valid() && trace == old(trace) + [ESetInbound(fromRaw, contact)] && Hist() == old(Hist())
      ensures inboundFrom == Some(fromRaw) && inboundTarget == contact
    {
      hide Run, Log;
      inboundFrom, inboundTarget := Some(fromRaw), contact;
      Did(ESetInbound(fromRaw, contact));
    }

    /** With a leg and a destination there is a dialog toward the callee from here on. */
    method SetEstablishedDialog(fromRaw: string, toRaw: string, contact: Option<string>)
      requires Valid()
      modifies this
      ensures Valid() && trace == old(trace) + [EEstablish(fromRaw, toRaw, contact)] && Hist() == old(Hist())
      ensures outbound.Some? && calleeDest.Some? ==> forall ip, port: nat :: DialogTowardCallee(View(), ip, port).Some?
      ensures inboundTo == Some(toRaw) && (outbound.Some? <==> old(outbound).Some?)
      ensures outbound.Some? ==>
                outbound.value == old(outbound).value.(fromRaw := Some(fromRaw), toRaw := Some(toRaw),
                                                       remoteTarget := contact)
    {
      hide Run, Log;
      inboundTo := Some(toRaw);
      if outbound.Some? {
        outbound := Some(outbound.value.(fromRaw := Some(fromRaw), toRaw := Some(toRaw), remoteTarget := contact));
      }
      Did(EEstablish(fromRaw, toRaw, contact));
    }

    method SetCalleeRequestUri(uri: string)
      requires Valid()
      modifies this
      ensures Valid() && trace == old(trace) + [ESetUri(uri)] && Hist() == old(Hist()) && calleeUri == Some(uri)
    {
      hide Run, Log;
      calleeUri := Some(uri);
      Did(ESetUri(uri));
    }

    /** 200 OK from the callee: its leg is up, and the call connected exactly if the caller's
        is up too; else the call stays as it was. */
    method HandleOk()
      requires Valid()
      modifies this
      ensures Valid() && trace == old(trace) + [EAnswered] && Hist() == old(Hist())
      ensures inboundEstablished == old(inboundEstablished)
      ensures state == if inboundEstablished then Connected else old(state)
      ensures outbound == if old(outbound).None? then None else Some(old(outbound).value.(established := true))
    {
      hide Run, Log;
      if outbound.Some? { outbound := Some(outbound.value.(established := true)); }
      if inboundEstablished { state := Connected; }
      Did(EAnswered);
    }

    /** ACK from the caller: its leg is up, and the call connected exactly if the callee's is. */
    method HandleAck()
      requires Valid()
      modifies this
      ensures Valid() && trace == old(trace) + [EAcked] && Hist() == old(Hist())
      ensures inboundEstablished && outbound == old(outbound)
      ensures state == if outbound.Some? && outbound.value.established then Connected else old(state)
    {
      hide Run, Log;
      inboundEstablished := true;
      if outbound.Some? && outbound.value.established { state := Connected; }
      Did(EAcked);
    }

    /** Ringing, BYE and termination only move the state. */
    method SetState(s: CallState)
      requires Valid()
      modifies this
      ensures Valid() && trace == old(trace) + [EState(s)] && Hist() == old(Hist()) && state == s
    {
      hide Run, Log;
      state := s;
      Did(EState(s));
    }
  }

  /** What pushing leaves in the call. */
  lemma PushedCall(c: Call, raw: string, dest: string, transport: string, trunkId: Option<string>)
    ensures var d := PushAttempt(c, raw, dest, transport, trunkId);
            && d.attempts != [] && d.attempts[|d.attempts| - 1] == AttemptOf(raw, dest, transport, trunkId)
            && d.outboundInvite == Some(raw) && d.calleeDest == Some(dest) && d.calleeTransport == transport
            && d.trunk == if trunkId.Some? then trunkId else c.trunk
  {
    hide AttemptOf;
  }

  lemma SameRefreshable(c: Call, d: Call)
    requires d == c.(timer := d.timer)
    ensures Refreshable(c) == Refreshable(d)
  {
    hide BodyOf;
  }

  lemma DueHasTimer(c: Call, now: nat, ip: string, port: nat)
    requires RefreshDue(c, now, ip, port)
    ensures c.timer.Some? && DialogTowardCallee(c, ip, port).Some?
  {
    hide DialogTowardCallee, SdpOf;
  }

  lemma RetainedLength(h: seq<Attempt>)
    ensures |Retained(h)| <= MAX_ATTEMPTS
  {
  }

  /** The search from the newest attempt down, by branch. */
  method FindByBranch(h: seq<Attempt>, branch: string) returns (r: Option<Attempt>)
    ensures r == WithBranch(h, branch)
  {
    var n := |h|;
    assert h[..n] == h;
    while n > 0
      invariant 0 <= n <= |h| && WithBranch(h[..n], branch) == WithBranch(h, branch)
    {
      assert h[..n][..n - 1] == h[..n - 1];
      if h[n - 1].branch == Some(branch) { return Some(h[n - 1]); }
      n := n - 1;
    }
    return None;
  }

  /** The same by CSeq. */
  method FindByCseq(h: seq<Attempt>, cseq: nat) returns (r: Option<Attempt>)
    ensures r == WithCseq(h, cseq)
  {
    var n := |h|;
    assert h[..n] == h;
    while n > 0
      invariant 0 <= n <= |h| && WithCseq(h[..n], cseq) == WithCseq(h, cseq)
    {
      assert h[..n][..n - 1] == h[..n - 1];
      if h[n - 1].cseq == cseq { return Some(h[n - 1]); }
      n := n - 1;
    }
    return None;
  }
}
