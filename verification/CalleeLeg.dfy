/** The callee leg of a call in `b2bua.rs`, as values: which INVITE a response
    belongs to, which CSeq the next request carries, and the session-refresh
    machine of RFC 4028. Each locked manager operation is one function. */
module CalleeLeg {
  import opened Prelude
  import opened Text
  import opened SipMessage
  import opened SipBuilder
  import opened InDialogRequests

  type Seq32 = n: nat | n < U32

  // ------------------------------------------------------------------
  // Data
  // ------------------------------------------------------------------

  datatype CallState = Initiated | Proceeding | Ringing | Connected | Terminating | Terminated

  datatype Leg = Leg(callId: string, cseq: Seq32, established: bool,
                     fromRaw: Option<string>, toRaw: Option<string>, remoteTarget: Option<string>)

  /** One INVITE transaction sent toward the callee. */
  datatype Attempt = Attempt(raw: string, branch: Option<string>, cseq: Seq32, dest: string, transport: string,
                             trunk: Option<string>)

  /** Session-timer state; times are milliseconds. */
  datatype Timer = Timer(interval: Seq32, minSe: Seq32, nextRefreshAt: nat, pendingCseq: Option<Seq32>,
                         pendingRaw: Option<string>, lastRefresh: Option<(Seq32, string)>, failures: nat)

  datatype Call = Call(state: CallState,
                       inboundEstablished: bool, inboundCallId: string, inboundFrom: Option<string>,
                       inboundTo: Option<string>, inboundTarget: Option<string>,
                       callerSource: string, callerTransport: string, sentTowardCaller: Seq32,
                       outbound: Option<Leg>, attempts: seq<Attempt>, outboundInvite: Option<string>,
                       trunk: Option<string>, calleeDest: Option<string>, calleeTransport: string,
                       calleeUri: Option<string>, timer: Option<Timer>)

  const MAX_ATTEMPTS := 8
  const MAX_REFRESH_FAILURES := 3

  // ------------------------------------------------------------------
  // CSeq numbers
  // ------------------------------------------------------------------

  /** The first line of a raw message that starts with `cseq:`. */
  function FirstCseqLine(lines: seq<string>): (r: Option<string>)
    ensures r.Some? ==> |r.value| >= 5
  {
    if lines == [] then None
    else if "cseq:" <= Lower(lines[0]) then Some(lines[0])
    else FirstCseqLine(lines[1..])
  }

  function ParseCseqNumber(raw: string): (r: Option<nat>)
    ensures r.Some? ==> r.value < U32
  {
    match FirstCseqLine(Split(raw, CRLF))
    case None => None
    case Some(l) =>
      match NextWord(l[5..])
      case None => None
      case Some(w) => ParseU32(w.0)
  }

  /** `u32` addition of one. */
  function Succ(n: Seq32): Seq32 { (n + 1) % U32 }

  /** CSeq of the live INVITE, else of the stored text, else 0. */
  function InviteCseq(c: Call): Seq32 {
    if c.attempts != [] then c.attempts[|c.attempts| - 1].cseq
    else if c.outboundInvite.Some? then
      match ParseCseqNumber(c.outboundInvite.value)
      case None => 0
      case Some(n) => n
    else 0
  }

  function LegCseq(c: Call): Seq32 { if c.outbound.Some? then c.outbound.value.cseq else 0 }

  function Max32(a: Seq32, b: Seq32): Seq32 { if a < b then b else a }

  function NextOutboundCseq(c: Call): Seq32 { Succ(Max32(InviteCseq(c), LegCseq(c))) }

  // ------------------------------------------------------------------
  // DialogInfo identities
  // ------------------------------------------------------------------

  function OrElse(a: Option<string>, b: Option<string>): Option<string> { if a.Some? then a else b }

  function DialogTowardCallee(c: Call, localIp: string, localPort: nat): Option<DialogInfo> {
    if c.outbound.None? then None
    else
      var out := c.outbound.value;
      var dest := if c.calleeDest.Some? then Some("sip:" + c.calleeDest.value) else None;
      var uri := OrElse(OrElse(out.remoteTarget, c.calleeUri), dest);
      if out.fromRaw.None? || out.toRaw.None? || uri.None? then None
      else Some(DialogInfo(out.callId, out.fromRaw.value, out.toRaw.value, uri.value, out.cseq, localIp, localPort,
                       c.calleeTransport))
  }

  function DialogTowardCaller(c: Call, localIp: string, localPort: nat): Option<DialogInfo> {
    if c.inboundTo.None? || c.inboundFrom.None? then None
    else
      var uri := if c.inboundTarget.Some? then c.inboundTarget.value else "sip:" + c.callerSource;
      Some(DialogInfo(c.inboundCallId, c.inboundTo.value, c.inboundFrom.value, uri, Succ(c.sentTowardCaller), localIp,
                  localPort, c.callerTransport))
  }

  // ------------------------------------------------------------------
  // INVITE attempts
  // ------------------------------------------------------------------

  function AttemptOf(raw: string, dest: string, transport: string, trunk: Option<string>): Attempt {
    var n := ParseCseqNumber(raw);
    Attempt(raw, TopViaBranch(raw), if n.Some? then n.value else 1, dest, transport, trunk)
  }

  /** The newest `MAX_ATTEMPTS` of a history. */
  function Retained(h: seq<Attempt>): seq<Attempt> {
    if |h| <= MAX_ATTEMPTS then h else h[|h| - MAX_ATTEMPTS..]
  }

  function PushAttempt(c: Call, raw: string, dest: string, transport: string, trunk: Option<string>): Call {
    c.(outboundInvite := Some(raw), trunk := OrElse(trunk, c.trunk), calleeDest := Some(dest),
       calleeTransport := transport, attempts := Retained(c.attempts + [AttemptOf(raw, dest, transport, trunk)]))
  }

  datatype Verdict = Current | Stale(attempt: Option<Attempt>)

  /** The newest attempt among `h` with this branch. */
  function WithBranch(h: seq<Attempt>, branch: string): (r: Option<Attempt>)
    ensures r.Some? ==> r.value in h && r.value.branch == Some(branch)
    ensures r.None? ==> forall a :: a in h ==> a.branch != Some(branch)
  {
    if h == [] then None
    else if h[|h| - 1].branch == Some(branch) then Some(h[|h| - 1])
    else WithBranch(h[..|h| - 1], branch)
  }

  /** The newest attempt among `h` with this CSeq number. */
  function WithCseq(h: seq<Attempt>, cseq: nat): Option<Attempt> {
    if h == [] then None
    else if h[|h| - 1].cseq == cseq then Some(h[|h| - 1])
    else WithCseq(h[..|h| - 1], cseq)
  }

  /** Which INVITE transaction a callee-leg response belongs to. */
  function Classify(attempts: seq<Attempt>, branch: Option<string>, cseq: nat): Verdict {
    if attempts == [] then Current
    else
      var current := attempts[|attempts| - 1];
      var older := attempts[..|attempts| - 1];
      if branch.Some? && current.branch == branch then Current
      else if branch.Some? && WithBranch(older, branch.value).Some? then Stale(WithBranch(older, branch.value))
      else if cseq > current.cseq then Stale(None)
      else if branch.Some? && current.branch.Some? && cseq == current.cseq then Current
      else if cseq < current.cseq then Stale(WithCseq(older, cseq))
      else Current
  }

  // ------------------------------------------------------------------
  // Session refresh
  // ------------------------------------------------------------------

  /** Milliseconds until the next refresh of a session of this interval. */
  function RefreshPeriodMs(interval: nat): nat { 1000 * Max(interval / 2, 30) }

  function ArmTimer(c: Call, now: nat, interval: Seq32, minSe: Seq32): Call {
    c.(timer := Some(Timer(interval, minSe, now + RefreshPeriodMs(interval), None, None, None, 0)))
  }

  function SdpOf(c: Call): string {
    if c.outboundInvite.None? then ""
    else
      match SplitOnce(c.outboundInvite.value, BLANK_LINE)
      case None => ""
      case Some(p) => p.1
  }

  /** Is a refresh re-INVITE to be sent now? */
  predicate RefreshDue(c: Call, now: nat, localIp: string, localPort: nat) {
    && c.state == Connected && c.calleeDest.Some? && c.timer.Some?
    && c.timer.value.nextRefreshAt <= now && c.timer.value.pendingCseq.None?
    && DialogTowardCallee(c, localIp, localPort).Some?
    && SdpOf(c) != ""
  }

  function RefreshText(c: Call, localIp: string, localPort: nat, br: string): string
    requires c.timer.Some? && DialogTowardCallee(c, localIp, localPort).Some?
  {
    BuildReinvite(DialogTowardCallee(c, localIp, localPort).value.(cseq := NextOutboundCseq(c)), SdpOf(c),
                  "<sip:sbc@" + localIp + ":" + Print(localPort) + ">", c.timer.value.interval, c.timer.value.minSe, br)
  }

  /** One pass of the refresh tick over this call. */
  function Refresh(c: Call, now: nat, localIp: string, localPort: nat, br: string): Call {
    if !RefreshDue(c, now, localIp, localPort) then c
    else
      var n := NextOutboundCseq(c);
      var raw := RefreshText(c, localIp, localPort, br);
      c.(outbound := Some(c.outbound.value.(cseq := n)),
         timer := Some(c.timer.value.(pendingCseq := Some(n), pendingRaw := Some(raw), lastRefresh := Some((n, raw)),
                                      nextRefreshAt := now + RefreshPeriodMs(c.timer.value.interval))))
  }

  predicate IsPending(c: Call, cseq: nat) { c.timer.Some? && c.timer.value.pendingCseq == Some(cseq) }

  /** A 2xx for the refresh in flight. */
  function Complete(c: Call, cseq: nat): Call {
    if !IsPending(c, cseq) then c
    else c.(timer := Some(c.timer.value.(pendingCseq := None, pendingRaw := None, failures := 0)))
  }

  /** A 422 that actually raises the interval. */
  predicate Progress(t: Timer, status: nat, minSe: Option<Seq32>) {
    status == 422 && minSe.Some? && minSe.value > t.interval
  }

  /** The timer after a rejection that counts (not 491, 405, 501, 420). */
  function Rejected(t: Timer, now: nat, status: nat, minSe: Option<Seq32>): Timer {
    var floor := if status == 422 && minSe.Some? then minSe.value else 0;
    var t1 := t.(interval := Max32(t.interval, floor), minSe := Max32(t.minSe, floor),
                 failures := if Progress(t, status, minSe) then 0 else t.failures + 1);
    t1.(nextRefreshAt := now + 1000 * BackoffSecs(t1))
  }

  /** `30 << min(failures, 4)`, capped by half the interval. */
  function BackoffSecs(t: Timer): nat {
    Min(Shifted(Min(t.failures, 4)), Max(t.interval / 2, 30))
  }

  function Shifted(n: nat): nat { if n == 0 then 30 else 2 * Shifted(n - 1) }

  predicate NeverCounts(status: nat) { status == 491 || status == 405 || status == 501 || status == 420 }

  predicate DialogGone(t: Timer, status: nat, minSe: Option<Seq32>) {
    !NeverCounts(status)
    && (status == 408 || status == 481 || (!Progress(t, status, minSe) && t.failures + 1 >= MAX_REFRESH_FAILURES))
  }

  /** A non-2xx for the refresh in flight; `delayMs` is the random glare delay. */
  function Fail(c: Call, now: nat, cseq: nat, status: nat, minSe: Option<Seq32>, delayMs: nat): Call {
    if !IsPending(c, cseq) then c
    else
      var t := c.timer.value.(pendingCseq := None, pendingRaw := None);
      if status == 491 then c.(timer := Some(t.(nextRefreshAt := now + delayMs)))
      else if status == 405 || status == 501 || status == 420 then c.(timer := None)
      else c.(timer := Some(Rejected(t, now, status, minSe)))
  }

  /** Is an answer with this CSeq a repeated answer to the last refresh? */
  predicate IsRefreshDuplicate(c: Call, cseq: nat) {
    && c.timer.Some? && c.timer.value.lastRefresh.Some? && c.timer.value.lastRefresh.value.0 == cseq
    && c.calleeDest.Some?
  }

  // ------------------------------------------------------------------
  // The other operations
  // ------------------------------------------------------------------

  function Attach(c: Call, callId: string, dest: string, transport: string): Call {
    c.(outbound := Some(Leg(callId, 1, false, None, None, None)), calleeDest := Some(dest),
       calleeTransport := transport)
  }

  function NoteRelayed(c: Call, towardCallee: bool, cseq: Seq32): Call {
    if !towardCallee then c.(sentTowardCaller := Max32(c.sentTowardCaller, cseq))
    else if c.outbound.Some? then c.(outbound := Some(c.outbound.value.(cseq := Max32(c.outbound.value.cseq, cseq))))
    else c
  }

  function Establish(c: Call, fromRaw: string, toRaw: string, contact: Option<string>): Call {
    var c1 := c.(inboundTo := Some(toRaw));
    if c.outbound.None? then c1
    else c1.(outbound := Some(c.outbound.value.(fromRaw := Some(fromRaw), toRaw := Some(toRaw),
                                                remoteTarget := contact)))
  }

  function RelayByeCallee(c: Call, localIp: string, localPort: nat): Call {
    if DialogTowardCallee(c, localIp, localPort).None? then c
    else c.(outbound := Some(c.outbound.value.(cseq := NextOutboundCseq(c))))
  }

  function RelayByeCaller(c: Call, localIp: string, localPort: nat): Call {
    match DialogTowardCaller(c, localIp, localPort)
    case None => c
    case Some(d) => c.(sentTowardCaller := Succ(c.sentTowardCaller))
  }

  /** 200 OK from the callee: the leg is up, and the call connected if the caller's is. */
  function Answered(c: Call): Call {
    var c1 := if c.outbound.None? then c else c.(outbound := Some(c.outbound.value.(established := true)));
    if c.inboundEstablished then c1.(state := Connected) else c1
  }

  /** ACK from the caller. */
  function Acked(c: Call): Call {
    var c1 := c.(inboundEstablished := true);
    if c.outbound.Some? && c.outbound.value.established then c1.(state := Connected) else c1
  }
}
