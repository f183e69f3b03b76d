/** A second `attach_outbound` on the same call starts the leg counter again at 1: when
    the numbers that follow still rise. */
module CalleeLegReattach {
  import opened Prelude
  import opened CalleeLeg
  import opened CalleeLegRuns

  /** The leg counter is a number that went out on the leg, or the 1 it starts from. */
  ghost predicate Attained(c: Call, log: seq<Entry>) {
    LegCseq(c) <= 1 || exists x :: x in log && CalleeCseq(x) == Some(LegCseq(c))
  }

  /** An operation leaves the leg counter alone, starts it again, or sends its new value. */
  lemma {:induction false} LegMoves(c: Call, e: Event)
    ensures var n, more := LegCseq(Next(c, e)), Entries(c, e);
            n == LegCseq(c) || n == 1 || (more != [] && CalleeCseq(more[0]) == Some(n))
  {
    hide AttemptOf, DialogTowardCaller, RefreshText, SdpOf, Rejected, InviteCseq, NextOutboundCseq, Retained,
      RefreshPeriodMs;
  }

  lemma {:induction false} StepAttained(c: Call, log: seq<Entry>, e: Event)
    requires Attained(c, log)
    ensures Attained(Next(c, e), log + Entries(c, e))
  {
    hide Next, Entries, LegCseq, CalleeCseq;
    LegMoves(c, e);
    var c', more := Next(c, e), Entries(c, e);
    if LegCseq(c') > 1 {
      if LegCseq(c') == LegCseq(c) {
        var x :| x in log && CalleeCseq(x) == Some(LegCseq(c));
        assert x in log + more;
      } else {
        assert more[0] in log + more;
      }
    }
  }

  lemma {:induction false} RunAttained(c: Call, evs: seq<Event>)
    requires IsNew(c)
    ensures Attained(Run(c, evs), Log(c, evs))
  {
    hide Next, Entries;
    if evs != [] {
      RunAttained(c, evs[..|evs| - 1]);
      StepAttained(Run(c, evs[..|evs| - 1]), Log(c, evs[..|evs| - 1]), evs[|evs| - 1]);
    }
  }

  /** After any disciplined run, a request numbered right after attaching again is above
      everything already sent exactly when the old counter had not passed the live
      INVITE's number (or 1, when that is higher). */
  lemma ReattachSafeIff(c: Call, evs: seq<Event>, callId: string, dest: string, transport: string)
    requires IsNew(c) && Disciplined(Log(c, evs)) && InviteCseq(Run(c, evs)) < U32 - 1
    ensures var before := Run(c, evs);
            var next := NextOutboundCseq(Attach(before, callId, dest, transport));
            (forall x :: x in Log(c, evs) && CalleeCseq(x).Some? ==> CalleeCseq(x).value < next)
            <==> LegCseq(before) <= Max32(InviteCseq(before), 1)
  {
    hide Run, Log, Disciplined, StrictlyAbove, InviteCseq, CalleeCseq;
    RunCounted(c, evs);
    RunAttained(c, evs);
    var before := Run(c, evs);
    KeptInvite(before, Attach(before, callId, dest, transport));
    forall a: Attempt ensures CalleeCseq(Pushed(a)) == Some(a.cseq) { PushedCseq(a); }
  }

  /** It can fall: after a relayed request numbered 10, the next one is numbered 2. */
  lemma ReattachCanFall(c: Call)
    requires IsNew(c) && c.outboundInvite.None?
    ensures var evs := [EAttach("leg", "peer", "UDP"), ERelayed(true, 10)];
            && Relayed(10) in Log(c, evs)
            && NextOutboundCseq(Attach(Run(c, evs), "leg", "peer", "UDP")) == 2
  {
    var e1, e2 := EAttach("leg", "peer", "UDP"), ERelayed(true, 10);
    var evs := [e1, e2];
    assert evs[..1] == [e1] && [e1][..0] == [];
    assert Run(c, [e1]) == Attach(c, "leg", "peer", "UDP");
  }
}
