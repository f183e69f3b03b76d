/** What the SBC's own requests on the two legs of a call look like to their peers: whose
    identity they carry, where they go, and when and with what a session is refreshed. */
module CalleeLegWire {
  import opened Prelude
  import opened Text
  import opened SipBuilder
  import opened InDialogRequests
  import opened InviteRenewal
  import opened PrintedRequests
  import opened CalleeLeg

  /** Where a request toward the callee goes: to its Contact, else to the Request-URI of the
      INVITE, else to the address the INVITE was sent to. */
  function CalleeTarget(c: Call): Option<string> {
    if c.outbound.Some? && c.outbound.value.remoteTarget.Some? then c.outbound.value.remoteTarget
    else if c.calleeUri.Some? then c.calleeUri
    else if c.calleeDest.Some? then Some("sip:" + c.calleeDest.value)
    else None
  }

  /** The SBC can speak in a dialog toward the callee. */
  predicate HasCallee(c: Call) {
    c.outbound.Some? && c.outbound.value.fromRaw.Some? && c.outbound.value.toRaw.Some? && CalleeTarget(c).Some?
  }

  predicate HasCaller(c: Call) { c.inboundTo.Some? && c.inboundFrom.Some? }

  function CallerTarget(c: Call): string {
    if c.inboundTarget.Some? then c.inboundTarget.value else "sip:" + c.callerSource
  }

  /** Values a header line can carry, and a Request-URI. */
  predicate Sendable(from: string, to: string, callId: string, uri: string) {
    CleanValue(from) && CleanValue(to) && CleanValue(callId) && Find(uri, CRLF).None? && ' ' !in uri
  }

  predicate CleanCallee(c: Call, ip: string) {
    && HasCallee(c) && '\r' !in ip && '\r' !in c.calleeTransport
    && Sendable(c.outbound.value.fromRaw.value, c.outbound.value.toRaw.value, c.outbound.value.callId,
                CalleeTarget(c).value)
  }

  predicate CleanCaller(c: Call, ip: string) {
    && HasCaller(c) && '\r' !in ip && '\r' !in c.callerTransport
    && Sendable(c.inboundTo.value, c.inboundFrom.value, c.inboundCallId, CallerTarget(c))
  }

  /** A request as its peer reads it. */
  ghost predicate ReadsAs(raw: string, verb: string, uri: string, from: string, to: string, callId: string, n: nat) {
    && CarriesCseq(raw, n, verb)
    && var id := ParseIdentity(verb, raw);
    && id.Some? && id.value.requestUri == uri && id.value.from == from && id.value.to == to && id.value.callId == callId
    && id.value.cseq == n && id.value.routes == []
  }

  lemma CalleeDialog(c: Call, ip: string, port: nat)
    ensures DialogTowardCallee(c, ip, port).Some? <==> HasCallee(c)
    ensures HasCallee(c) ==>
              var d, leg := DialogTowardCallee(c, ip, port).value, c.outbound.value;
              && d.requestUri == CalleeTarget(c).value && d.fromRaw == leg.fromRaw.value && d.toRaw == leg.toRaw.value
              && d.callId == leg.callId && d.cseq < U32
              && d.localIp == ip && d.localPort == port && d.transport == c.calleeTransport
  {
  }

  lemma CallerDialog(c: Call, ip: string, port: nat)
    ensures DialogTowardCaller(c, ip, port).Some? <==> HasCaller(c)
    ensures HasCaller(c) ==>
              var d := DialogTowardCaller(c, ip, port).value;
              && d.requestUri == CallerTarget(c) && d.fromRaw == c.inboundTo.value && d.toRaw == c.inboundFrom.value
              && d.callId == c.inboundCallId && d.cseq == Succ(c.sentTowardCaller)
              && d.localIp == ip && d.localPort == port && d.transport == c.callerTransport
  {
  }

  // ------------------------------------------------------------------
  // BYE
  // ------------------------------------------------------------------

  /** The BYE toward the callee, as the callee reads it: in the dialog of the outbound leg, the
      SBC as From and the callee as To, with the next number of the leg. */
  lemma ByeTowardCalleeReads(c: Call, ip: string, port: nat, reason: Option<string>, br: string)
    requires CleanCallee(c, ip) && '\r' !in br && (reason.Some? ==> '\r' !in reason.value && Trimmed(reason.value))
    ensures DialogTowardCallee(c, ip, port).Some?
    ensures var leg := c.outbound.value;
            var bye := BuildBye(DialogTowardCallee(c, ip, port).value.(cseq := NextOutboundCseq(c)), reason, br);
            && ReadsAs(bye, "BYE", CalleeTarget(c).value, leg.fromRaw.value, leg.toRaw.value, leg.callId,
                       NextOutboundCseq(c))
            && HeaderValues(bye, "reason") == (if reason.Some? then [reason.value] else []) && BodyOf(bye) == ""
            && SentBy(bye, c.calleeTransport, ip, port, br)
  {
    hide SentBy, DialogTowardCallee, NextOutboundCseq, CleanValue, BuildBye, Find, Trimmed, CalleeTarget, HeaderValues,
      BodyOf, ParseIdentity, CarriesCseq;
    CalleeDialog(c, ip, port);
    ByeReads(DialogTowardCallee(c, ip, port).value.(cseq := NextOutboundCseq(c)), reason, br);
  }

  /** The BYE toward the caller: in the dialog of the caller's INVITE the other way round, the
      answered To as From and the caller as To. */
  lemma ByeTowardCallerReads(c: Call, ip: string, port: nat, reason: Option<string>, br: string)
    requires CleanCaller(c, ip) && '\r' !in br && (reason.Some? ==> '\r' !in reason.value && Trimmed(reason.value))
    ensures DialogTowardCaller(c, ip, port).Some?
    ensures var bye := BuildBye(DialogTowardCaller(c, ip, port).value, reason, br);
            && ReadsAs(bye, "BYE", CallerTarget(c), c.inboundTo.value, c.inboundFrom.value, c.inboundCallId,
                       Succ(c.sentTowardCaller))
            && HeaderValues(bye, "reason") == (if reason.Some? then [reason.value] else []) && BodyOf(bye) == ""
            && SentBy(bye, c.callerTransport, ip, port, br)
  {
    hide SentBy, DialogTowardCaller, CleanValue, BuildBye, Find, Trimmed, CallerTarget, HeaderValues, BodyOf,
      ParseIdentity, CarriesCseq;
    CallerDialog(c, ip, port);
    ByeReads(DialogTowardCaller(c, ip, port).value, reason, br);
  }

  lemma ByeReads(d: DialogInfo, reason: Option<string>, br: string)
    requires CleanDialog(d) && '\r' !in br && (reason.Some? ==> '\r' !in reason.value && Trimmed(reason.value))
    ensures ReadsAs(BuildBye(d, reason, br), "BYE", d.requestUri, d.fromRaw, d.toRaw, d.callId, d.cseq)
    ensures HeaderValues(BuildBye(d, reason, br), "reason") == (if reason.Some? then [reason.value] else [])
            && BodyOf(BuildBye(d, reason, br)) == ""
            && SentBy(BuildBye(d, reason, br), d.transport, d.localIp, d.localPort, br)
  {
    hide SentBy, CleanDialog, BuildRequest, Find, Trimmed, HeaderValues, BodyOf, ParseIdentity, CarriesCseq,
      OtherLines, IsVerb, TopViaBranch, ViaValue, Header;
    Byes();
    ReasonReads(reason);
    ReasonLinesAre(reason);
    DialogRequestReads("BYE", d, ReasonLines(reason), "", br);
    ByeCarries(d, reason, br);
  }

  /** Once a 200 OK has established the dialog: both BYEs carry the identities it set, each
      toward its own side, and go to the Contact its side gave. */
  lemma EstablishedDialog(c: Call, fromRaw: string, toRaw: string, contact: Option<string>, ip: string, port: nat)
    requires c.outbound.Some?
    ensures var d := Establish(c, fromRaw, toRaw, contact);
            && d.inboundTo == Some(toRaw) && d.outbound.Some?
            && d.outbound == Some(c.outbound.value.(fromRaw := Some(fromRaw), toRaw := Some(toRaw),
                                                    remoteTarget := contact))
            && (contact.Some? ==> HasCallee(d) && CalleeTarget(d) == contact)
            && (c.inboundFrom.Some? ==> HasCaller(d))
  {
  }

  // ------------------------------------------------------------------
  // Session refresh
  // ------------------------------------------------------------------

  /** The body of the INVITE last sent to the callee. */
  function SentBody(c: Call): string { if c.outboundInvite.Some? then BodyOf(c.outboundInvite.value) else "" }

  lemma SentBodyIs(c: Call)
    ensures SdpOf(c) == SentBody(c)
  {
    hide Find;
  }

  /** All that has to hold of a call for its refresh to be sent. */
  predicate Refreshable(c: Call) {
    c.state == Connected && c.calleeDest.Some? && HasCallee(c) && SentBody(c) != ""
  }

  /** Once armed, a refresh of a refreshable call is due from half the interval on, or from 30
      seconds for a shorter one, and not before. */
  lemma DueWhen(c: Call, armed: nat, interval: Seq32, minSe: Seq32, now: nat, ip: string, port: nat)
    ensures RefreshDue(ArmTimer(c, armed, interval, minSe), now, ip, port) <==>
              Refreshable(c) && now >= armed + 1000 * (if interval / 2 < 30 then 30 else interval / 2)
  {
    hide SdpOf, SentBody, DialogTowardCallee, HasCallee;
    var d := ArmTimer(c, armed, interval, minSe);
    SentBodyIs(c);
    assert SdpOf(d) == SdpOf(c) by { SameBody(c, d); }
    CalleeDialog(d, ip, port);
    assert HasCallee(d) == HasCallee(c) by { SameCallee(c, d); }
  }

  lemma SameBody(c: Call, d: Call)
    requires c.outboundInvite == d.outboundInvite
    ensures SdpOf(c) == SdpOf(d)
  {
  }

  lemma SameCallee(c: Call, d: Call)
    requires c.calleeUri == d.calleeUri && c.calleeDest == d.calleeDest
    requires c.outbound.Some? <==> d.outbound.Some?
    requires c.outbound.Some? ==> d.outbound.value == c.outbound.value.(cseq := d.outbound.value.cseq)
    ensures HasCallee(c) == HasCallee(d)
  {
  }

  /** A refresh that was answered with a 2xx is followed by the next one half an interval after
      it was sent; one that was not answered blocks the next. */
  lemma DueAgain(c: Call, sent: nat, now: nat, ip: string, port: nat, br: string)
    requires RefreshDue(c, sent, ip, port)
    ensures var r, t := Refresh(c, sent, ip, port, br), c.timer.value;
            && !RefreshDue(r, now, ip, port)
            && (RefreshDue(Complete(r, NextOutboundCseq(c)), now, ip, port) <==>
                  now >= sent + 1000 * (if t.interval / 2 < 30 then 30 else t.interval / 2))
  {
    hide SdpOf, RefreshText, NextOutboundCseq, DialogTowardCallee, HasCallee;
    var r := Refresh(c, sent, ip, port, br);
    var d := Complete(r, NextOutboundCseq(c));
    SameBody(c, d);
    CalleeDialog(c, ip, port);
    CalleeDialog(d, ip, port);
    HasLeg(c);
    SameCallee(c, d);
  }

  lemma HasLeg(c: Call)
    requires HasCallee(c)
    ensures c.outbound.Some?
  {
  }

  lemma ContactClean(ip: string, port: nat)
    requires '\r' !in ip
    ensures var contact := "<sip:sbc@" + ip + ":" + Print(port) + ">"; '\r' !in contact && Trimmed(contact)
  {
    hide Print;
    DigitsNoCr(port);
    var front := "<sip:sbc@" + ip + ":";
    assert '\r' !in front && front[0] == '<';
    var contact := front + Print(port) + ">";
    assert contact[0] == '<' && contact[|contact| - 1] == '>';
  }

  /** The refresh re-INVITE, as the callee reads it: in the dialog of the outbound leg with its
      next number, the session description last sent with its length, the interval of the
      timer with the SBC as refresher, the Min-SE of the timer, and the SBC's address as
      Contact. */
  lemma RefreshReads(c: Call, ip: string, port: nat, br: string)
    requires CleanCallee(c, ip) && c.timer.Some? && '\r' !in br
    ensures DialogTowardCallee(c, ip, port).Some?
    ensures var leg, raw := c.outbound.value, RefreshText(c, ip, port, br);
            && ReadsAs(raw, "INVITE", CalleeTarget(c).value, leg.fromRaw.value, leg.toRaw.value, leg.callId,
                       NextOutboundCseq(c))
            && BodyOf(raw) == SentBody(c) && HeaderValues(raw, "content-length") == [Print(|Utf8(SentBody(c))|)]
            && HeaderValues(raw, "session-expires") == [Print(c.timer.value.interval) + ";refresher=uac"]
            && HeaderValues(raw, "min-se") == [Print(c.timer.value.minSe)]
            && HeaderValues(raw, "contact") == ["<sip:sbc@" + ip + ":" + Print(port) + ">"]
            && SentBy(raw, c.calleeTransport, ip, port, br)
  {
    hide SentBy, DialogTowardCallee, NextOutboundCseq, CleanValue, BuildReinvite, Find, Trimmed, CalleeTarget,
      HeaderValues, BodyOf, ParseIdentity, CarriesCseq, SdpOf, SentBody, Print, Utf8;
    CalleeDialog(c, ip, port);
    SentBodyIs(c);
    ContactClean(ip, port);
    ReinviteReads(DialogTowardCallee(c, ip, port).value.(cseq := NextOutboundCseq(c)), SdpOf(c),
                  "<sip:sbc@" + ip + ":" + Print(port) + ">", c.timer.value.interval, c.timer.value.minSe, br);
  }

  lemma ReinviteReads(d: DialogInfo, sdp: string, contact: string, interval: nat, minSe: nat, br: string)
    requires CleanDialog(d) && '\r' !in br && '\r' !in contact && Trimmed(contact)
    ensures var raw := BuildReinvite(d, sdp, contact, interval, minSe, br);
            && ReadsAs(raw, "INVITE", d.requestUri, d.fromRaw, d.toRaw, d.callId, d.cseq)
            && HeaderValues(raw, "session-expires") == [Print(interval) + ";refresher=uac"]
            && HeaderValues(raw, "min-se") == [Print(minSe)] && HeaderValues(raw, "contact") == [contact]
            && HeaderValues(raw, "content-length") == [Print(|Utf8(sdp)|)] && BodyOf(raw) == sdp
            && SentBy(raw, d.transport, d.localIp, d.localPort, br)
  {
    hide SentBy, CleanDialog, BuildRequest, Find, Trimmed, HeaderValues, BodyOf, ParseIdentity, CarriesCseq,
      OtherLines, IsVerb, TopViaBranch, ViaValue, RefreshExtras, Print, Utf8;
    InviteVerb();
    RefreshExtrasRead(contact, interval, minSe);
    DialogRequestReads("INVITE", d, RefreshExtras(contact, interval, minSe), sdp, br);
    ReinviteCarries(d, sdp, contact, interval, minSe, br);
  }

  /** The ACK for the 2xx of a refresh goes to the same dialog with the refresh's own number. */
  lemma AckReads(c: Call, cseq: Seq32, ip: string, port: nat, br: string)
    requires CleanCallee(c, ip) && '\r' !in br
    ensures DialogTowardCallee(c, ip, port).Some?
    ensures var leg, raw := c.outbound.value, BuildAckFor2xx(DialogTowardCallee(c, ip, port).value, cseq, br);
            && ReadsAs(raw, "ACK", CalleeTarget(c).value, leg.fromRaw.value, leg.toRaw.value, leg.callId, cseq)
            && SentBy(raw, c.calleeTransport, ip, port, br)
  {
    hide SentBy, DialogTowardCallee, CleanValue, BuildAckFor2xx, Find, CalleeTarget, ParseIdentity, CarriesCseq,
      BodyOf, ViaValue;
    CalleeDialog(c, ip, port);
    AckFor2xxReads(DialogTowardCallee(c, ip, port).value, cseq, br);
  }
}
