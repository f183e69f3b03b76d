/** Rejected session refreshes (sections 7.3 and 7.4 of RFC 4028): one rejection, and
    whole runs of a call. */
module CalleeLegRejections {
  import opened Prelude
  import opened CalleeLeg
  import opened CalleeLegRuns

  /** How many more rejections a timer can take without the dialog being given up. */
  function Patience(t: Timer): nat {
    4 * (U32 - t.interval) + (MAX_REFRESH_FAILURES - Min(t.failures, MAX_REFRESH_FAILURES))
  }

  lemma {:induction false} ShiftedIs(n: nat)
    ensures Shifted(n) == 30 * Pow2(n) >= 30
  {
    if n > 0 { ShiftedIs(n - 1); }
  }

  /** One rejection: it reports the dialog gone, or the pair (2^32 - interval, 3 - failures)
      falls lexicographically. Only a 422 moves interval and Min-SE, and never down. The
      wait is 30 s, doubled with every failure in a row up to four times, and at most half
      the interval, or 30 s. The dialog is gone exactly after 408, 481 or the third
      rejection in a row that brought no progress. */
  lemma RejectionMakesProgress(t: Timer, now: nat, status: nat, minSe: Option<Seq32>)
    requires !NeverCounts(status)
    ensures var t' := Rejected(t, now, status, minSe);
            && t.interval <= t'.interval && t.minSe <= t'.minSe
            && (!DialogGone(t, status, minSe) ==>
                  && t'.failures < 3
                  && (t'.interval > t.interval || (t'.interval == t.interval && t'.failures > t.failures))
                  && Patience(t') < Patience(t))
            && Patience(t') <= Patience(t)
            && now + 30_000 <= t'.nextRefreshAt <= now + 1000 * Max(30, t'.interval / 2)
            && t'.nextRefreshAt == now + 1000 * Min(30 * Pow2(Min(t'.failures, 4)), Max(30, t'.interval / 2))
            && (status != 422 || minSe.None? ==> t'.interval == t.interval && t'.minSe == t.minSe)
            && (status == 422 && minSe.Some? ==>
                  t'.interval == Max(t.interval, minSe.value) && t'.minSe == Max(t.minSe, minSe.value))
            && t'.failures == (if status == 422 && minSe.Some? && minSe.value > t.interval then 0 else t.failures + 1)
            && t'.pendingCseq == t.pendingCseq && t'.lastRefresh == t.lastRefresh
    ensures DialogGone(t, status, minSe) <==>
              || status == 408 || status == 481
              || (!(status == 422 && minSe.Some? && minSe.value > t.interval) && t.failures + 1 >= 3)
  {
    ShiftedIs(Min(Rejected(t, now, status, minSe).failures, 4));
  }

  // ------------------------------------------------------------------
  // Over runs
  // ------------------------------------------------------------------

  /** The event is a counted rejection of the refresh in flight that did not end the dialog. */
  predicate Rejects(c: Call, e: Event) {
    && e.EFail? && IsPending(c, e.answered) && !NeverCounts(e.status)
    && !DialogGone(c.timer.value, e.status, e.peerMinSe)
  }

  /** The event is the 2xx of the refresh in flight. */
  predicate Completes(c: Call, e: Event) { e.EComplete? && IsPending(c, e.answered) }

  /** How often a run was rejected without the dialog being given up. */
  function Rejections(c: Call, evs: seq<Event>): nat {
    if evs == [] then 0
    else
      var init, e := evs[..|evs| - 1], evs[|evs| - 1];
      Rejections(c, init) + (if Rejects(Run(c, init), e) then 1 else 0)
  }

  function Left(c: Call): nat { if c.timer.Some? then Patience(c.timer.value) else 0 }

  /** What an event other than an arming does to the timer: it goes, or it is rejected,
      or interval, Min-SE and failures stay (a completion sets the failures to 0). */
  lemma {:induction false} TimerMoves(c: Call, e: Event)
    requires !e.EArm?
    ensures Next(c, e).timer.Some? ==>
              && c.timer.Some?
              && var t, t' := c.timer.value, Next(c, e).timer.value;
              || (t'.interval == t.interval && t'.minSe == t.minSe
                  && (t'.failures == t.failures || (Completes(c, e) && t'.failures == 0)))
              || (e.EFail? && IsPending(c, e.answered) && !NeverCounts(e.status)
                  && t' == Rejected(t.(pendingCseq := None, pendingRaw := None), e.now, e.status, e.peerMinSe))
    ensures e.EFail? && IsPending(c, e.answered) && !NeverCounts(e.status) ==>
              Next(c, e).timer == Some(Rejected(c.timer.value.(pendingCseq := None, pendingRaw := None),
                                                e.now, e.status, e.peerMinSe))
  {
    hide AttemptOf, DialogTowardCaller, DialogTowardCallee, RefreshText, SdpOf, Rejected, InviteCseq, NextOutboundCseq,
      Retained, RefreshPeriodMs;
  }

  lemma {:induction false} StepKeeps(c: Call, e: Event)
    requires !e.EArm? && Next(c, e).timer.Some?
    ensures c.timer.Some? && c.timer.value.interval <= Next(c, e).timer.value.interval
    ensures c.timer.value.minSe <= Next(c, e).timer.value.minSe
  {
    hide Next, Rejected, IsPending, NeverCounts, Completes;
    TimerMoves(c, e);
    if e.EFail? && !NeverCounts(e.status) && c.timer.Some? {
      RejectionMakesProgress(c.timer.value.(pendingCseq := None, pendingRaw := None), e.now, e.status, e.peerMinSe);
    }
  }

  lemma {:induction false} StepPatience(c: Call, e: Event)
    requires !e.EArm? && !Completes(c, e)
    ensures Left(Next(c, e)) + (if Rejects(c, e) then 1 else 0) <= Left(c)
  {
    hide Next, Rejected, NeverCounts, Completes, DialogGone;
    TimerMoves(c, e);
    if e.EFail? && !NeverCounts(e.status) && c.timer.Some? {
      var t := c.timer.value.(pendingCseq := None, pendingRaw := None);
      RejectionMakesProgress(t, e.now, e.status, e.peerMinSe);
      SamePatience(c.timer.value, e.status, e.peerMinSe);
    }
  }

  lemma SamePatience(t: Timer, status: nat, minSe: Option<Seq32>)
    ensures var u := t.(pendingCseq := None, pendingRaw := None);
            Patience(u) == Patience(t) && (DialogGone(u, status, minSe) <==> DialogGone(t, status, minSe))
  {
  }

  /** Between two armings, whatever else happens to the call, the interval and Min-SE never
      fall, and a timer that was given up does not come back. */
  lemma {:induction false} IntervalNeverFalls(c: Call, evs: seq<Event>, i: nat)
    requires (forall j :: 0 <= j < |evs| ==> !evs[j].EArm?) && i <= |evs| && Run(c, evs).timer.Some?
    ensures Run(c, evs[..i]).timer.Some?
    ensures Run(c, evs[..i]).timer.value.interval <= Run(c, evs).timer.value.interval
    ensures Run(c, evs[..i]).timer.value.minSe <= Run(c, evs).timer.value.minSe
    decreases |evs|
  {
    hide Next;
    if i == |evs| {
      assert evs[..i] == evs;
    } else {
      var n := |evs| - 1;
      var init := evs[..n];
      assert init[..i] == evs[..i];
      StepKeeps(Run(c, init), evs[n]);
      IntervalNeverFalls(c, init, i);
    }
  }

  /** No call is refreshed and rejected forever: in any stretch of a run without an arming
      or a completing 2xx, the rejections that did not end the dialog are at most as
      many as the patience the stretch started with. */
  lemma {:induction false} RejectionsEnd(c: Call, evs: seq<Event>)
    requires forall i :: 0 <= i < |evs| ==> !evs[i].EArm? && !Completes(Run(c, evs[..i]), evs[i])
    ensures Left(Run(c, evs)) + Rejections(c, evs) <= Left(c)
  {
    hide Next, Rejects, Left, Completes;
    if evs != [] {
      var init := evs[..|evs| - 1];
      assert forall i :: 0 <= i < |init| ==> init[..i] == evs[..i];
      RejectionsEnd(c, init);
      StepPatience(Run(c, init), evs[|evs| - 1]);
    }
  }
}
