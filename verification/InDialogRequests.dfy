/** The requests `sip_builder.rs` builds from a dialog identity: BYE, the ACK for
    a 2xx and the session-refresh re-INVITE. */
module InDialogRequests {
  import opened Prelude
  import opened Text
  import opened SipMessage
  import opened SipBuilder

  /** DialogInfo identity of one leg, as the peer knows it. */
  datatype DialogInfo = DialogInfo(callId: string, fromRaw: string, toRaw: string, requestUri: string, cseq: nat,
                           localIp: string, localPort: nat, transport: string)

  /** A Via value up to its branch parameter. */
  function ViaFront(d: DialogInfo): string {
    "SIP/2.0/" + Upper(d.transport) + " " + d.localIp + ":" + Print(d.localPort) + ";"
  }

  function ViaValue(d: DialogInfo, br: string): string { ViaFront(d) + (BRANCH + (br + ";rport")) }

  /** Length of a text in bytes. */
  function Utf8Len(s: string): nat {
    if s == "" then 0
    else
      var n := s[0] as int;
      (if n < 0x80 then 1 else if n < 0x800 then 2 else if n < 0x1_0000 then 3 else 4) + Utf8Len(s[1..])
  }

  function RequestBlock(verb: string, d: DialogInfo, extras: seq<string>, body: string, br: string): seq<string> {
    [Line(Via, ViaValue(d, br)), MaxForwardsLine(), Line(From, d.fromRaw), Line(To, d.toRaw), Line(CallId, d.callId),
     Line(CSeq, CseqValue(d.cseq, verb))] + extras + [Header("Content-Length", Print(Utf8Len(body)))]
  }

  function BuildRequest(verb: string, d: DialogInfo, extras: seq<string>, body: string, br: string): string {
    Render(StartLine(verb, d.requestUri), RequestBlock(verb, d, extras, body, br), body)
  }

  function BuildBye(d: DialogInfo, reason: Option<string>, br: string): string {
    BuildRequest("BYE", d, if reason.None? then [] else [Header("Reason", reason.value)], "", br)
  }

  function BuildAckFor2xx(d: DialogInfo, inviteCseq: nat, br: string): string {
    BuildRequest("ACK", d.(cseq := inviteCseq), [], "", br)
  }

  function RefreshExtras(contact: string, interval: nat, minSe: nat): seq<string> {
    [Header("Contact", contact), Header("Supported", "timer"),
     Header("Session-Expires", Print(interval) + ";refresher=uac"), Header("Min-SE", Print(minSe)),
     Header("Content-Type", "application/sdp")]
  }

  /** Refresh re-INVITE of RFC 4028, the SBC being the refresher. */
  function BuildReinvite(d: DialogInfo, sdp: string, contact: string, interval: nat, minSe: nat, br: string): string {
    BuildRequest("INVITE", d, RefreshExtras(contact, interval, minSe), sdp, br)
  }

  predicate CleanDialog(d: DialogInfo) {
    && Find(d.requestUri, CRLF).None? && ' ' !in d.requestUri
    && CleanValue(d.fromRaw) && CleanValue(d.toRaw) && CleanValue(d.callId) && d.cseq < U32
    && '\r' !in d.transport && '\r' !in d.localIp
  }

  function IdentityOfDialog(d: DialogInfo, br: string): Identity {
    Identity(d.requestUri, ViaValue(d, br), d.fromRaw, d.toRaw, d.callId, d.cseq, [])
  }

  lemma {:induction false} ViaValueClean(d: DialogInfo, br: string)
    requires CleanDialog(d) && '\r' !in br
    ensures CleanValue(ViaValue(d, br))
  {
    hide Find, Print, CleanValue, ViaFront;
    FrontClean(d);
    var front, tail := ViaFront(d), BRANCH + (br + ";rport");
    TailEnds(br);
    assert ViaValue(d, br) == front + tail;
    NoCr(front + tail);
    assert (front + tail)[0] == 'S' && (front + tail)[|front + tail| - 1] == 't';
    ClosedText(front + tail);
  }

  lemma TailEnds(br: string)
    requires '\r' !in br
    ensures var tail := BRANCH + (br + ";rport"); tail != "" && tail[|tail| - 1] == 't' && '\r' !in tail
  {
    var end := br + ";rport";
    assert end[|end| - 1] == 't' && '\r' !in end;
    assert '\r' !in BRANCH;
  }

  lemma FrontClean(d: DialogInfo)
    requires '\r' !in d.transport && '\r' !in d.localIp
    ensures ViaFront(d) != "" && ViaFront(d)[0] == 'S' && '\r' !in ViaFront(d)
    ensures '=' !in d.transport && '=' !in d.localIp ==> '=' !in ViaFront(d)
  {
    hide Print, Upper;
    var p := Print(d.localPort);
    assert forall i :: 0 <= i < |p| ==> IsDigit(p[i]);
    assert '\r' !in p && '=' !in p;
    var a := "SIP/2.0/" + Upper(d.transport) + " ";
    assert a[0] == 'S' && '\r' !in a && ('=' !in d.transport ==> '=' !in a);
    var b := a + d.localIp + ":";
    assert b[0] == 'S' && '\r' !in b;
  }

  lemma {:induction false} BranchAfterFront(front: string, rest: string)
    requires '=' !in front
    ensures Find(front + (BRANCH + rest), BRANCH) == Some(|front|)
  {
    hide Find;
    var s := front + (BRANCH + rest);
    forall j | 0 <= j < |front| ensures !OccursAt(s, BRANCH, j) {
      if j + 7 <= |s| {
        assert s[j..j + 7][6] == s[j + 6];
        if j + 6 < |front| { assert s[j + 6] == front[j + 6]; } else { assert s[j + 6] == BRANCH[j + 6 - |front|]; }
      }
    }
    assert s[|front|..|front| + 7] == BRANCH;
    FindIs(s, BRANCH, |front|);
  }

  /** The Via of a printed request carries exactly the branch it was given. */
  lemma {:induction false} ViaCarriesBranch(d: DialogInfo, br: string)
    requires '\r' !in d.transport && '\r' !in d.localIp && '=' !in d.transport && '=' !in d.localIp
    requires br != "" && forall j :: 0 <= j < |br| ==> !EndsBranch(br[j])
    ensures BranchOf(ViaValue(d, br)) == Some(br)
  {
    hide Find, ViaFront, Trim, BranchToken, EndsBranch;
    FrontClean(d);
    var front, rest := ViaFront(d), br + ";rport";
    BranchAfterFront(front, rest);
    AfterBranch(front, rest);
    assert EndsBranch(';') by { SemicolonEndsBranch(); }
    BranchTokenIs(br, ";rport");
    TokenTrimmed(br);
  }

  lemma AfterBranch(front: string, rest: string)
    ensures (front + (BRANCH + rest))[|front| + |BRANCH|..] == rest
  {
  }

  lemma SemicolonEndsBranch() ensures EndsBranch(';') {}

  lemma TokenTrimmed(br: string)
    requires br != "" && forall j :: 0 <= j < |br| ==> !EndsBranch(br[j])
    ensures Trim(br) == br
  {
    hide Trim;
    TrimIsTrimmed(br);
  }

  lemma ClosedText(v: string)
    requires v != "" && v[0] == 'S' && v[|v| - 1] == 't' && Find(v, CRLF).None?
    ensures CleanValue(v)
  {
    hide Find;
  }

  lemma ContactIsOther()
    ensures FieldNamed(Lower("Contact")) == Other
  {
    hide Lower;
    LowerFacts("Contact");
    assert Lower("Contact")[1] == LowerChar('o') && |Lower("Contact")| == 7;
  }

  lemma MinSeIsOther()
    ensures FieldNamed(Lower("Min-SE")) == Other
  {
    hide Lower;
    assert |Lower("Min-SE")| == 6;
  }

  lemma GoodShortNames()
    ensures GoodName("Contact") && GoodName("Supported") && GoodName("Min-SE")
  {
    hide IsWhite;
    NotWhite();
  }

  lemma GoodLongNames()
    ensures GoodName("Session-Expires") && GoodName("Content-Type")
  {
    hide IsWhite;
    NotWhite();
  }

  lemma {:induction false} ExtraReads(name: string, value: string)
    requires GoodName(name) && FieldNamed(Lower(name)) == Other && '\r' !in value
    ensures FieldOf(Header(name, value)) == Other && IsLine(Header(name, value))
  {
    hide Find, Lower, FieldNamed, FieldOf, Header, IsLine, Trimmed, ValueOf, AfterColon;
    HeaderParts(name, value);
    NoCr(value);
    HeaderIsLine(name, value);
  }

  ghost predicate OtherLines(ls: seq<string>) {
    forall k :: 0 <= k < |ls| ==> IsLine(ls[k]) && FieldOf(ls[k]) == Other
  }

  lemma DigitsNoCr(n: nat)
    ensures '\r' !in Print(n)
  {
    hide Print;
    assert forall i :: 0 <= i < |Print(n)| ==> IsDigit(Print(n)[i]);
  }

  lemma {:induction false} RefreshExtrasRead(contact: string, interval: nat, minSe: nat)
    requires '\r' !in contact
    ensures OtherLines(RefreshExtras(contact, interval, minSe))
  {
    hide FieldOf, IsLine, Header, Print, FieldNamed, Lower, GoodName;
    GoodShortNames();
    GoodLongNames();
    ContactIsOther();
    MinSeIsOther();
    LongName("Supported");
    LongName("Session-Expires");
    LongName("Content-Type");
    DigitsNoCr(interval);
    DigitsNoCr(minSe);
    ExtraReads("Contact", contact);
    ExtraReads("Supported", "timer");
    ExtraReads("Session-Expires", Print(interval) + ";refresher=uac");
    ExtraReads("Min-SE", Print(minSe));
    ExtraReads("Content-Type", "application/sdp");
  }

  lemma {:induction false} DialogBlockReads(a: seq<string>, extras: seq<string>, b: seq<string>)
    requires |a| == 6 && FieldOf(a[0]) == Via && FieldOf(a[1]) == Other && FieldOf(a[2]) == From
             && FieldOf(a[3]) == To && FieldOf(a[4]) == CallId && FieldOf(a[5]) == CSeq
    requires OtherLines(extras) && |b| == 1 && FieldOf(b[0]) == Other
    ensures var block := a + extras + b;
            && First(block, Via) == Some(a[0]) && Last(block, From) == Some(a[2]) && Last(block, To) == Some(a[3])
            && Last(block, CallId) == Some(a[4]) && Last(block, CSeq) == Some(a[5])
            && All(block, Route) == []
  {
    hide FieldOf, First, Last, All, IsLine;
    var block := a + extras + b;
    assert forall j :: 6 <= j < |block| ==> FieldOf(block[j]) == Other;
    FirstIs(block, Via, 0);
    LastIs(block, From, 2);
    LastIs(block, To, 3);
    LastIs(block, CallId, 4);
    LastIs(block, CSeq, 5);
    AllNone(block, Route);
  }

  /** Any in-dialog request the builder prints parses back to the dialog it was built from,
      and its CSeq line carries the dialog's number and the method of the start line. */
  lemma {:induction false} DialogRequestReads(verb: string, d: DialogInfo, extras: seq<string>, body: string,
                                              br: string)
    requires IsVerb(verb) && CleanDialog(d) && OtherLines(extras) && '\r' !in br
    ensures ParseIdentity(verb, BuildRequest(verb, d, extras, body, br)) == Some(IdentityOfDialog(d, br))
    ensures TopViaBranch(BuildRequest(verb, d, extras, body, br)) == BranchOf(ViaValue(d, br))
    ensures CarriesCseq(BuildRequest(verb, d, extras, body, br), d.cseq, verb)
  {
    hide BranchOf, CseqParts;
    hide Find, Split, Render, FieldOf, ValueOf, RequestUri, CseqNumber, Line, StartLine, First, Last, All, HeaderBlock;
    hide CseqValue, CleanValue, IsLine, ViaValue, Header, MaxForwardsLine, Print, AfterColon, IsVerb, Utf8Len;
    StartLineClean(verb, d);
    ViaValueClean(d, br);
    CseqValueReads(d.cseq, verb);
    LineReads(Via, ViaValue(d, br));
    LineReads(From, d.fromRaw);
    LineReads(To, d.toRaw);
    LineReads(CallId, d.callId);
    LineReads(CSeq, CseqValue(d.cseq, verb));
    MaxForwardsReads();
    ContentLengthLineReads(body);
    var a := [Line(Via, ViaValue(d, br)), MaxForwardsLine(), Line(From, d.fromRaw), Line(To, d.toRaw),
              Line(CallId, d.callId), Line(CSeq, CseqValue(d.cseq, verb))];
    var b := [Header("Content-Length", Print(Utf8Len(body)))];
    DialogBlockReads(a, extras, b);
    assert AreLines(a + extras + b);
    RenderedBlock(StartLine(verb, d.requestUri), a + extras + b, body);
    BranchTrimmed(ViaValue(d, br));
  }

  /** And the branch read from it is the fresh one, whatever the transport's spelling. */
  lemma {:induction false} DialogRequestBranch(verb: string, d: DialogInfo, extras: seq<string>, body: string,
                                               br: string)
    requires IsVerb(verb) && CleanDialog(d) && OtherLines(extras) && '\r' !in br
    requires '=' !in d.transport && '=' !in d.localIp
    requires br != "" && forall j :: 0 <= j < |br| ==> !EndsBranch(br[j])
    ensures TopViaBranch(BuildRequest(verb, d, extras, body, br)) == Some(br)
  {
    hide Find, TopViaBranch, BuildRequest, BranchOf, ViaValue, IsVerb, OtherLines, CleanValue, EndsBranch;
    DialogRequestReads(verb, d, extras, body, br);
    ViaCarriesBranch(d, br);
  }

  lemma {:induction false} StartLineClean(verb: string, d: DialogInfo)
    requires IsVerb(verb) && CleanDialog(d)
    ensures RequestUri(StartLine(verb, d.requestUri), verb) == Some(d.requestUri)
    ensures Find(StartLine(verb, d.requestUri), CRLF).None?
  {
    hide Find, RequestUri, StartLine, IsVerb, CleanValue;
    StartLineReads(verb, d.requestUri);
  }

  lemma {:induction false} ContentLengthLineReads(body: string)
    ensures var l := Header("Content-Length", Print(Utf8Len(body))); IsLine(l) && FieldOf(l) == Other
  {
    hide FieldOf, IsLine, Header, Print, GoodName, Utf8Len;
    GoodContentLength();
    DigitsNoCr(Utf8Len(body));
    OtherReads("Content-Length", Print(Utf8Len(body)));
  }

  lemma InviteVerb() ensures IsVerb("INVITE") {
    hide IsWhite;
    NotWhite();
  }

  /** A refresh re-INVITE carries the dialog's CSeq, so the ACK for its rejection does too,
      under the method ACK. */
  lemma {:induction false} RejectedRefreshAck(d: DialogInfo, sdp: string, contact: string, interval: nat, minSe: nat,
                                              br: string, responseTo: string)
    requires CleanDialog(d) && '\r' !in br && '\r' !in contact && Find(responseTo, CRLF).None?
    ensures var ack := BuildAckForNon2xx(BuildReinvite(d, sdp, contact, interval, minSe, br), responseTo);
            && ack.Some?
            && ParseIdentity("ACK", ack.value) == Some(IdentityOfDialog(d, br).(to := Trim(responseTo)))
            && CarriesCseq(ack.value, d.cseq, "ACK")
  {
    hide CarriesCseq, ParseIdentity, BuildRequest, Find, Trim, RefreshExtras, IsVerb, RequestText, CleanValue, ViaValue;
    InviteVerb();
    RefreshExtrasRead(contact, interval, minSe);
    DialogRequestReads("INVITE", d, RefreshExtras(contact, interval, minSe), sdp, br);
    AckMatchesInvite(BuildReinvite(d, sdp, contact, interval, minSe, br), responseTo);
  }
}
