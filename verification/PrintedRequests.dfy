/** What a peer reads under each header name of the requests the builder prints, and their
    bodies. */
module PrintedRequests {
  import opened Prelude
  import opened Text
  import opened SipMessage
  import opened SipBuilder
  import opened InDialogRequests
  import opened InviteRenewal

  // ------------------------------------------------------------------
  // A block of named lines
  // ------------------------------------------------------------------

  ghost predicate NamedAs(block: seq<string>, names: seq<string>) {
    |block| == |names| && forall k :: 0 <= k < |block| ==> NameOfLine(block[k]) == Some(names[k])
  }

  lemma {:induction false} NoValue(block: seq<string>, names: seq<string>, low: string)
    requires NamedAs(block, names) && low !in names
    ensures NamedValues(block, low) == []
  {
    hide NameOfLine, ValueOf;
    if block != [] { NoValue(block[..|block| - 1], names[..|block| - 1], low); }
  }

  /** The name occurs at `i` and nowhere else. */
  predicate Once(names: seq<string>, low: string, i: nat) {
    i < |names| && names[i] == low && forall j :: 0 <= j < |names| && j != i ==> names[j] != low
  }

  /** A name that occurs once has one value. */
  lemma {:induction false} OnlyValue(block: seq<string>, names: seq<string>, low: string, i: nat)
    requires NamedAs(block, names) && Once(names, low, i)
    ensures i < |block| && NamedValues(block, low) == [ValueOf(block[i])]
  {
    hide NameOfLine, ValueOf;
    var n := |block| - 1;
    if i < n {
      OnlyValue(block[..n], names[..n], low, i);
    } else {
      NoValue(block[..n], names[..n], low);
    }
  }

  lemma HeaderRead(name: string, low: string, value: string)
    requires GoodName(name) && Lower(name) == low && Trimmed(value)
    ensures NameOfLine(Header(name, value)) == Some(low) && ValueOf(Header(name, value)) == value
  {
    hide Lower, Trimmed, Header, NameOfLine, ValueOf, AfterColon, FieldOf, FieldNamed;
    HeaderParts(name, value);
    TrimIsTrimmed(value);
  }

  lemma LowerFixed()
    ensures Lower("Max-Forwards") == "max-forwards" && Lower("Content-Length") == "content-length"
    ensures Lower("Reason") == "reason"
  {
    hide Lower;
    LowerIs("Max-Forwards", "max-forwards");
    LowerIs("Content-Length", "content-length");
    LowerIs("Reason", "reason");
  }

  lemma LowerExtras()
    ensures Lower("Contact") == "contact" && Lower("Supported") == "supported" && Lower("Min-SE") == "min-se"
  {
    hide Lower;
    LowerIs("Contact", "contact");
    LowerIs("Supported", "supported");
    LowerIs("Min-SE", "min-se");
  }

  lemma LowerLongExtras()
    ensures Lower("Session-Expires") == "session-expires" && Lower("Content-Type") == "content-type"
  {
    hide Lower;
    LowerIs("Session-Expires", "session-expires");
    LowerIs("Content-Type", "content-type");
  }

  lemma GoodReason() ensures GoodName("Reason") {
    hide IsWhite;
    NotWhite();
  }

  lemma DigitsTrimmed(n: nat)
    ensures Trimmed(Print(n))
  {
    hide Print;
    assert IsDigit(Print(n)[0]) && IsDigit(Print(n)[|Print(n)| - 1]);
  }

  // ------------------------------------------------------------------
  // Content-Length counts bytes
  // ------------------------------------------------------------------

  /** UTF-8, section 3 of RFC 3629. */
  function Utf8(s: string): seq<nat> {
    if s == "" then []
    else
      var n := s[0] as int;
      (if n < 0x80 then [n]
       else if n < 0x800 then [0xC0 + n / 0x40, 0x80 + n % 0x40]
       else if n < 0x1_0000 then [0xE0 + n / 0x1000, 0x80 + n / 0x40 % 0x40, 0x80 + n % 0x40]
       else [0xF0 + n / 0x4_0000, 0x80 + n / 0x1000 % 0x40, 0x80 + n / 0x40 % 0x40, 0x80 + n % 0x40])
      + Utf8(s[1..])
  }

  lemma {:induction false} BytesCounted(s: string)
    ensures Utf8Len(s) == |Utf8(s)|
  {
    if s != "" { BytesCounted(s[1..]); }
  }

  // ------------------------------------------------------------------
  // Requests in a dialog
  // ------------------------------------------------------------------

  lemma LinesOfDialog(verb: string, d: DialogInfo, body: string, br: string)
    requires IsVerb(verb) && CleanDialog(d) && '\r' !in br
    ensures NameOfLine(Line(Via, ViaValue(d, br))) == Some("via") && NameOfLine(Line(From, d.fromRaw)) == Some("from")
    ensures NameOfLine(Line(To, d.toRaw)) == Some("to") && NameOfLine(Line(CallId, d.callId)) == Some("call-id")
    ensures NameOfLine(Line(CSeq, CseqValue(d.cseq, verb))) == Some("cseq")
    ensures NameOfLine(MaxForwardsLine()) == Some("max-forwards") && ValueOf(MaxForwardsLine()) == "70"
    ensures var l := Header("Content-Length", Print(Utf8Len(body)));
            NameOfLine(l) == Some("content-length") && ValueOf(l) == Print(Utf8Len(body))
  {
    hide Header, NameOfLine, ValueOf, Lower, GoodName, ViaValue, CseqValue, Find, IsVerb, Print, Utf8Len, Trimmed;
    LowerShort();
    LowerLong();
    LowerFixed();
    GoodPrintedName(Via);
    GoodPrintedName(From);
    GoodPrintedName(To);
    GoodPrintedName(CallId);
    GoodPrintedName(CSeq);
    GoodPrintedName(Other);
    GoodContentLength();
    ViaValueClean(d, br);
    CseqValueReads(d.cseq, verb);
    HeaderRead("Via", "via", ViaValue(d, br));
    HeaderRead("From", "from", d.fromRaw);
    HeaderRead("To", "to", d.toRaw);
    HeaderRead("Call-ID", "call-id", d.callId);
    HeaderRead("CSeq", "cseq", CseqValue(d.cseq, verb));
    SeventyTrimmed();
    HeaderRead("Max-Forwards", "max-forwards", "70");
    DigitsTrimmed(Utf8Len(body));
    HeaderRead("Content-Length", "content-length", Print(Utf8Len(body)));
  }

  lemma SeventyTrimmed() ensures Trimmed("70") && Trimmed("timer") && Trimmed("application/sdp") {}

  /** The header block and the body of a printed in-dialog request. */
  lemma {:induction false} RequestParts(verb: string, d: DialogInfo, extras: seq<string>, body: string, br: string)
    requires IsVerb(verb) && CleanDialog(d) && OtherLines(extras) && '\r' !in br
    ensures var raw := BuildRequest(verb, d, extras, body, br);
            HeaderBlock(Split(raw, CRLF)) == RequestBlock(verb, d, extras, body, br) && BodyOf(raw) == body
  {
    hide Find, Split, Render, FieldOf, ValueOf, RequestUri, CseqNumber, Line, StartLine, HeaderBlock, BodyOf;
    hide CseqValue, CleanValue, IsLine, ViaValue, Header, MaxForwardsLine, Print, AfterColon, IsVerb, Utf8Len,
      CseqParts;
    StartLineClean(verb, d);
    ViaValueClean(d, br);
    CseqValueReads(d.cseq, verb);
    LineReads(Via, ViaValue(d, br));
    LineReads(From, d.fromRaw);
    LineReads(To, d.toRaw);
    LineReads(CallId, d.callId);
    LineReads(CSeq, CseqValue(d.cseq, verb));
    MaxForwardsReads();
    ContentLengthLineReads(body);
    var block := RequestBlock(verb, d, extras, body, br);
    assert AreLines(block);
    RenderedBlock(StartLine(verb, d.requestUri), block, body);
    RenderBody(StartLine(verb, d.requestUri), block, body);
    BodyIs(Join([StartLine(verb, d.requestUri)] + block, CRLF), body);
  }

  /** The one hop a request names: the sender's address, reached over its transport in upper
      case, with its own branch, and the wish to be answered at the port it sent from. */
  ghost predicate SentBy(raw: string, transport: string, ip: string, port: nat, br: string) {
    HeaderValues(raw, "via")
      == ["SIP/2.0/" + InUpperCase(transport) + " " + ip + ":" + Print(port) + ";branch=" + br + ";rport"]
  }

  function InUpperCase(s: string): string {
    seq(|s|, i requires 0 <= i < |s| => if 'a' <= s[i] <= 'z' then (s[i] as int - 32) as char else s[i])
  }

  lemma {:induction false} UpperIs(s: string)
    ensures Upper(s) == InUpperCase(s)
  {
    if s != "" {
      UpperIs(s[1..]);
      assert InUpperCase(s) == [UpperChar(s[0])] + InUpperCase(s[1..]);
    }
  }

  lemma ViaSpelled(d: DialogInfo, br: string)
    ensures ViaValue(d, br) == "SIP/2.0/" + InUpperCase(d.transport) + " " + d.localIp + ":" + Print(d.localPort)
                               + ";branch=" + br + ";rport"
  {
    hide Print, Upper, InUpperCase;
    UpperIs(d.transport);
    ViaJoined("SIP/2.0/" + Upper(d.transport) + " " + d.localIp + ":" + Print(d.localPort), br);
  }

  lemma ViaJoined(front: string, br: string)
    ensures (front + ";") + (BRANCH + (br + ";rport")) == front + ";branch=" + br + ";rport"
  {
    assert ";" + BRANCH == ";branch=";
  }

  lemma ViaOnce(names: seq<string>)
    requires "via" !in names
    ensures Once(FRONT_NAMES + names + ["content-length"], "via", 0)
  {
  }

  /** Every printed in-dialog request names the sender's hop. */
  lemma NamesItsHop(verb: string, d: DialogInfo, extras: seq<string>, names: seq<string>, body: string, br: string)
    requires IsVerb(verb) && CleanDialog(d) && OtherLines(extras) && '\r' !in br
    requires NamedAs(extras, names) && "via" !in names
    ensures SentBy(BuildRequest(verb, d, extras, body, br), d.transport, d.localIp, d.localPort, br)
  {
    hide Find, Split, Line, NameOfLine, ValueOf, Header, MaxForwardsLine, ViaValue, CseqValue, IsVerb, CleanDialog,
      Print, Utf8Len, NamedValues, HeaderBlock, BodyOf, BuildRequest, OtherLines, Once, InUpperCase;
    RequestParts(verb, d, extras, body, br);
    BlockNames(verb, d, extras, names, body, br);
    ViaOnce(names);
    OnlyValue(RequestBlock(verb, d, extras, body, br), FRONT_NAMES + names + ["content-length"], "via", 0);
    ViaLineReads(d, br);
    ViaSpelled(d, br);
  }

  lemma ViaLineReads(d: DialogInfo, br: string)
    requires CleanDialog(d) && '\r' !in br
    ensures ValueOf(Line(Via, ViaValue(d, br))) == ViaValue(d, br)
  {
    hide Find, CleanValue, CleanDialog, ViaValue, ValueOf, Line;
    ViaValueClean(d, br);
    LineReads(Via, ViaValue(d, br));
  }

  const FRONT_NAMES := ["via", "max-forwards", "from", "to", "call-id", "cseq"]

  /** The names of a request's lines, given those of its extra headers. */
  lemma BlockNames(verb: string, d: DialogInfo, extras: seq<string>, names: seq<string>, body: string, br: string)
    requires IsVerb(verb) && CleanDialog(d) && '\r' !in br && NamedAs(extras, names)
    ensures NamedAs(RequestBlock(verb, d, extras, body, br), FRONT_NAMES + names + ["content-length"])
  {
    hide Line, NameOfLine, Header, MaxForwardsLine, ViaValue, CseqValue, IsVerb, CleanDialog, Print, Utf8Len, ValueOf;
    LinesOfDialog(verb, d, body, br);
    var front := [Line(Via, ViaValue(d, br)), MaxForwardsLine(), Line(From, d.fromRaw), Line(To, d.toRaw),
                  Line(CallId, d.callId), Line(CSeq, CseqValue(d.cseq, verb))];
    var last := [Header("Content-Length", Print(Utf8Len(body)))];
    assert NamedAs(front, FRONT_NAMES);
    assert NamedAs(last, ["content-length"]);
    NamedTogether(front, FRONT_NAMES, extras, names);
    NamedTogether(front + extras, FRONT_NAMES + names, last, ["content-length"]);
  }

  lemma NamedTogether(a: seq<string>, na: seq<string>, b: seq<string>, nb: seq<string>)
    requires NamedAs(a, na) && NamedAs(b, nb)
    ensures NamedAs(a + b, na + nb)
  {
    hide NameOfLine;
  }

  lemma ReinviteExtras(contact: string, interval: nat, minSe: nat)
    requires '\r' !in contact && Trimmed(contact)
    ensures var ls := RefreshExtras(contact, interval, minSe);
            && NamedAs(ls, REINVITE_NAMES)
            && ValueOf(ls[0]) == contact && ValueOf(ls[1]) == "timer"
            && ValueOf(ls[2]) == Print(interval) + ";refresher=uac" && ValueOf(ls[3]) == Print(minSe)
            && ValueOf(ls[4]) == "application/sdp"
  {
    hide Header, NameOfLine, ValueOf, Lower, GoodName, Print, Trimmed;
    LowerExtras();
    LowerLongExtras();
    GoodShortNames();
    GoodLongNames();
    SeventyTrimmed();
    DigitsTrimmed(minSe);
    RefresherTrimmed(interval);
    HeaderRead("Contact", "contact", contact);
    HeaderRead("Supported", "supported", "timer");
    HeaderRead("Session-Expires", "session-expires", Print(interval) + ";refresher=uac");
    HeaderRead("Min-SE", "min-se", Print(minSe));
    HeaderRead("Content-Type", "content-type", "application/sdp");
  }

  lemma RefresherTrimmed(interval: nat)
    ensures Trimmed(Print(interval) + ";refresher=uac")
  {
    hide Print;
    assert IsDigit(Print(interval)[0]);
  }

  /** What the peer reads in a refresh re-INVITE (section 7.1 of RFC 4028): the interval with
      the SBC as refresher, the Min-SE, where to answer, and the session description with
      its length in bytes. */
  lemma ReinviteCarries(d: DialogInfo, sdp: string, contact: string, interval: nat, minSe: nat, br: string)
    requires CleanDialog(d) && '\r' !in br && '\r' !in contact && Trimmed(contact)
    ensures var raw := BuildReinvite(d, sdp, contact, interval, minSe, br);
            && HeaderValues(raw, "session-expires") == [Print(interval) + ";refresher=uac"]
            && HeaderValues(raw, "min-se") == [Print(minSe)] && HeaderValues(raw, "contact") == [contact]
            && HeaderValues(raw, "supported") == ["timer"] && HeaderValues(raw, "content-type") == ["application/sdp"]
            && HeaderValues(raw, "max-forwards") == ["70"]
            && HeaderValues(raw, "content-length") == [Print(|Utf8(sdp)|)] && BodyOf(raw) == sdp
            && SentBy(raw, d.transport, d.localIp, d.localPort, br)
  {
    hide SentBy, Find, Split, Line, NameOfLine, ValueOf, Header, MaxForwardsLine, ViaValue, CseqValue, IsVerb,
      CleanDialog, Print, Utf8Len, NamedValues, RefreshExtras, HeaderBlock, BodyOf, BuildRequest, OtherLines, Utf8,
      Trimmed;
    var extras := RefreshExtras(contact, interval, minSe);
    InviteVerb();
    BytesCounted(sdp);
    RefreshExtrasRead(contact, interval, minSe);
    ReinviteExtras(contact, interval, minSe);
    RequestParts("INVITE", d, extras, sdp, br);
    BlockNames("INVITE", d, extras, REINVITE_NAMES, sdp, br);
    LinesOfDialog("INVITE", d, sdp, br);
    assert |extras| == 5;
    ReinviteValues(RequestBlock("INVITE", d, extras, sdp, br));
    NamesItsHop("INVITE", d, extras, REINVITE_NAMES, sdp, br);
  }

  const REINVITE_NAMES := ["contact", "supported", "session-expires", "min-se", "content-type"]

  lemma FixedNamesOnce(names: seq<string>)
    requires names == REINVITE_NAMES || names == ["reason"] || names == []
    ensures Once(FRONT_NAMES + names + ["content-length"], "max-forwards", 1)
    ensures Once(FRONT_NAMES + names + ["content-length"], "content-length", |names| + 6)
  {
  }

  lemma SessionNamesOnce()
    ensures Once(FRONT_NAMES + REINVITE_NAMES + ["content-length"], "session-expires", 8)
    ensures Once(FRONT_NAMES + REINVITE_NAMES + ["content-length"], "min-se", 9)
  {
  }

  lemma OtherNamesOnce()
    ensures Once(FRONT_NAMES + REINVITE_NAMES + ["content-length"], "contact", 6)
    ensures Once(FRONT_NAMES + REINVITE_NAMES + ["content-length"], "supported", 7)
    ensures Once(FRONT_NAMES + REINVITE_NAMES + ["content-length"], "content-type", 10)
  {
  }

  lemma ReasonOnce()
    ensures Once(FRONT_NAMES + ["reason"] + ["content-length"], "reason", 6)
    ensures "reason" !in FRONT_NAMES + [] + ["content-length"]
  {
  }

  lemma ReinviteValues(block: seq<string>)
    requires NamedAs(block, FRONT_NAMES + REINVITE_NAMES + ["content-length"])
    ensures |block| == 12
    ensures NamedValues(block, "max-forwards") == [ValueOf(block[1])]
    ensures NamedValues(block, "contact") == [ValueOf(block[6])]
    ensures NamedValues(block, "supported") == [ValueOf(block[7])]
    ensures NamedValues(block, "session-expires") == [ValueOf(block[8])]
    ensures NamedValues(block, "min-se") == [ValueOf(block[9])]
    ensures NamedValues(block, "content-type") == [ValueOf(block[10])]
    ensures NamedValues(block, "content-length") == [ValueOf(block[11])]
  {
    var all := FRONT_NAMES + REINVITE_NAMES + ["content-length"];
    assert |block| == 12;
    hide NameOfLine, ValueOf, NamedValues, NamedAs, Once;
    FixedNamesOnce(REINVITE_NAMES);
    SessionNamesOnce();
    OtherNamesOnce();
    OnlyValue(block, all, "max-forwards", 1);
    OnlyValue(block, all, "contact", 6);
    OnlyValue(block, all, "supported", 7);
    OnlyValue(block, all, "session-expires", 8);
    OnlyValue(block, all, "min-se", 9);
    OnlyValue(block, all, "content-type", 10);
    OnlyValue(block, all, "content-length", 11);
  }

  lemma Byes() ensures IsVerb("BYE") {
    hide IsWhite;
    NotWhite();
  }

  function ReasonLines(reason: Option<string>): seq<string> {
    if reason.None? then [] else [Header("Reason", reason.value)]
  }

  lemma ReasonReads(reason: Option<string>)
    requires reason.Some? ==> '\r' !in reason.value && Trimmed(reason.value)
    ensures OtherLines(ReasonLines(reason))
    ensures NamedAs(ReasonLines(reason), if reason.Some? then ["reason"] else [])
    ensures reason.Some? ==> ValueOf(ReasonLines(reason)[0]) == reason.value
  {
    hide Header, NameOfLine, ValueOf, Lower, GoodName, Trimmed, FieldOf, IsLine, FieldNamed;
    if reason.Some? {
      LowerFixed();
      GoodReason();
      ReasonIsOther();
      HeaderRead("Reason", "reason", reason.value);
      ExtraReads("Reason", reason.value);
    }
  }

  lemma ReasonIsOther() ensures FieldNamed("reason") == Other {}

  /** A BYE carries its reason, when there is one, and no body. */
  lemma ByeCarries(d: DialogInfo, reason: Option<string>, br: string)
    requires CleanDialog(d) && '\r' !in br && (reason.Some? ==> '\r' !in reason.value && Trimmed(reason.value))
    ensures var raw := BuildBye(d, reason, br);
            && HeaderValues(raw, "reason") == (if reason.Some? then [reason.value] else [])
            && HeaderValues(raw, "max-forwards") == ["70"] && HeaderValues(raw, "content-length") == [Print(0)]
            && BodyOf(raw) == "" && SentBy(raw, d.transport, d.localIp, d.localPort, br)
  {
    hide SentBy, Find, Split, Line, NameOfLine, ValueOf, Header, MaxForwardsLine, ViaValue, CseqValue, IsVerb,
      CleanDialog, Print, NamedValues, HeaderBlock, BodyOf, OtherLines, Trimmed, ReasonLines, Render, StartLine;
    assert Utf8Len("") == 0;
    var extras := ReasonLines(reason);
    var names := if reason.Some? then ["reason"] else [];
    Byes();
    ReasonReads(reason);
    RequestParts("BYE", d, extras, "", br);
    BlockNames("BYE", d, extras, names, "", br);
    LinesOfDialog("BYE", d, "", br);
    assert BuildBye(d, reason, br) == BuildRequest("BYE", d, extras, "", br) by { ReasonLinesAre(reason); }
    ByeValues(RequestBlock("BYE", d, extras, "", br), names);
    NamesItsHop("BYE", d, extras, names, "", br);
  }

  lemma ReasonLinesAre(reason: Option<string>)
    ensures ReasonLines(reason) == if reason.None? then [] else [Header("Reason", reason.value)]
  {
  }

  lemma ByeValues(block: seq<string>, names: seq<string>)
    requires names == ["reason"] || names == []
    requires NamedAs(block, FRONT_NAMES + names + ["content-length"])
    ensures |block| == |names| + 7
    ensures NamedValues(block, "max-forwards") == [ValueOf(block[1])]
    ensures NamedValues(block, "reason") == if names == [] then [] else [ValueOf(block[6])]
    ensures NamedValues(block, "content-length") == [ValueOf(block[|block| - 1])]
  {
    var all := FRONT_NAMES + names + ["content-length"];
    assert |block| == |names| + 7;
    hide NameOfLine, ValueOf, NamedValues, NamedAs, Once;
    FixedNamesOnce(names);
    ReasonOnce();
    OnlyValue(block, all, "max-forwards", 1);
    if names == [] { NoValue(block, all, "reason"); } else { OnlyValue(block, all, "reason", 6); }
    OnlyValue(block, all, "content-length", |block| - 1);
  }

  /** The ACK for a 2xx carries the number of the INVITE it acknowledges under its own
      method, and nothing else. */
  lemma AckFor2xxReads(d: DialogInfo, inviteCseq: nat, br: string)
    requires CleanDialog(d) && '\r' !in br && inviteCseq < U32
    ensures var raw := BuildAckFor2xx(d, inviteCseq, br);
            && ParseIdentity("ACK", raw) == Some(IdentityOfDialog(d.(cseq := inviteCseq), br))
            && CarriesCseq(raw, inviteCseq, "ACK") && BodyOf(raw) == ""
            && SentBy(raw, d.transport, d.localIp, d.localPort, br)
  {
    hide SentBy, ParseIdentity, CarriesCseq, BuildRequest, Find, IsVerb, BodyOf, HeaderBlock, Split, CleanValue,
      ViaValue;
    Verbs();
    var e := d.(cseq := inviteCseq);
    assert OtherLines([]);
    DialogRequestReads("ACK", e, [], "", br);
    RequestParts("ACK", e, [], "", br);
    NamesItsHop("ACK", e, [], [], "", br);
  }

  // ------------------------------------------------------------------
  // Requests of an INVITE's transaction
  // ------------------------------------------------------------------

  lemma {:induction false} RouteNames(routes: seq<string>)
    requires forall k :: 0 <= k < |routes| ==> CleanValue(routes[k])
    ensures NamedAs(RouteLines(routes), seq(|routes|, _ => "route"))
  {
    hide Header, NameOfLine, Lower, GoodName, ValueOf, CleanValue;
    if routes != [] {
      var n := |routes| - 1;
      RouteNames(routes[..n]);
      LowerLong();
      GoodPrintedName(Route);
      CleanTrimmed(routes[n]);
      HeaderRead("Route", "route", routes[n]);
    }
  }

  lemma CleanTrimmed(v: string)
    requires CleanValue(v)
    ensures Trimmed(v)
  {
    hide Find;
  }

  lemma LinesOfInvite(verb: string, id: Identity)
    requires IsVerb(verb) && CleanIdentity(id)
    ensures NameOfLine(Line(Via, id.topVia)) == Some("via") && NameOfLine(Line(From, id.from)) == Some("from")
    ensures NameOfLine(Line(To, id.to)) == Some("to") && NameOfLine(Line(CallId, id.callId)) == Some("call-id")
    ensures NameOfLine(Line(CSeq, CseqValue(id.cseq, verb))) == Some("cseq")
    ensures NameOfLine(MaxForwardsLine()) == Some("max-forwards") && ValueOf(MaxForwardsLine()) == "70"
    ensures NameOfLine(ContentLengthLine()) == Some("content-length") && ValueOf(ContentLengthLine()) == "0"
  {
    hide Header, NameOfLine, ValueOf, Lower, GoodName, CseqValue, Find, IsVerb, Print, CleanValue, Trimmed, CseqParts;
    LowerShort();
    LowerLong();
    LowerFixed();
    GoodPrintedName(Via);
    GoodPrintedName(From);
    GoodPrintedName(To);
    GoodPrintedName(CallId);
    GoodPrintedName(CSeq);
    GoodPrintedName(Other);
    GoodContentLength();
    CseqValueReads(id.cseq, verb);
    CleanTrimmed(id.topVia);
    CleanTrimmed(id.from);
    CleanTrimmed(id.to);
    CleanTrimmed(id.callId);
    CleanTrimmed(CseqValue(id.cseq, verb));
    HeaderRead("Via", "via", id.topVia);
    HeaderRead("From", "from", id.from);
    HeaderRead("To", "to", id.to);
    HeaderRead("Call-ID", "call-id", id.callId);
    HeaderRead("CSeq", "cseq", CseqValue(id.cseq, verb));
    SeventyTrimmed();
    ZeroTrimmed();
    HeaderRead("Max-Forwards", "max-forwards", "70");
    HeaderRead("Content-Length", "content-length", "0");
  }

  lemma ZeroTrimmed() ensures Trimmed("0") {}

  /** A CANCEL, and the ACK for a rejection, carry fresh hops and no body. */
  lemma {:induction false} TransactionRequestCarries(verb: string, id: Identity)
    requires IsVerb(verb) && CleanIdentity(id)
    ensures var raw := RequestText(verb, id);
            && HeaderValues(raw, "max-forwards") == ["70"] && HeaderValues(raw, "content-length") == ["0"]
            && HeaderValues(raw, "route") == id.routes && BodyOf(raw) == ""
  {
    hide Find, Split, Line, NameOfLine, ValueOf, Header, MaxForwardsLine, CseqValue, IsVerb, CleanValue, Print, Render,
      NamedValues, HeaderBlock, BodyOf, StartLine, ContentLengthLine, RouteLines, All, First, Last, FieldOf, IsLine;
    RequestHeadersRead(verb, id);
    StartLineReads(verb, id.requestUri);
    var headers := RequestHeaders(verb, id);
    RenderedBlock(StartLine(verb, id.requestUri), headers, "");
    RenderBody(StartLine(verb, id.requestUri), headers, "");
    BodyIs(Join([StartLine(verb, id.requestUri)] + headers, CRLF), "");
    LinesOfInvite(verb, id);
    TransactionNames(verb, id);
    RouteNames(id.routes);
    hide NamedAs;
    TransactionValues(headers, |id.routes|);
    RouteValues(headers);
  }

  const AFTER_ROUTES := ["from", "to", "call-id", "cseq", "content-length"]

  lemma TransactionNames(verb: string, id: Identity)
    requires IsVerb(verb) && CleanIdentity(id)
    ensures NamedAs(RequestHeaders(verb, id), ["via", "max-forwards"] + seq(|id.routes|, _ => "route") + AFTER_ROUTES)
  {
    hide Line, NameOfLine, ValueOf, MaxForwardsLine, CseqValue, IsVerb, CleanValue, Print, ContentLengthLine,
      RouteLines, Find;
    LinesOfInvite(verb, id);
    RouteNames(id.routes);
    var front := [Line(Via, id.topVia), MaxForwardsLine()];
    var last := [Line(From, id.from), Line(To, id.to), Line(CallId, id.callId), Line(CSeq, CseqValue(id.cseq, verb)),
                 ContentLengthLine()];
    var names := seq(|id.routes|, _ => "route");
    assert NamedAs(front, ["via", "max-forwards"]);
    assert NamedAs(last, AFTER_ROUTES);
    hide NamedAs;
    NamedTogether(front, ["via", "max-forwards"], RouteLines(id.routes), names);
    NamedTogether(front + RouteLines(id.routes), ["via", "max-forwards"] + names, last, AFTER_ROUTES);
  }

  lemma TransactionValues(block: seq<string>, n: nat)
    requires NamedAs(block, ["via", "max-forwards"] + seq(n, _ => "route") + AFTER_ROUTES)
    ensures |block| == n + 7
    ensures NamedValues(block, "max-forwards") == [ValueOf(block[1])]
    ensures NamedValues(block, "content-length") == [ValueOf(block[n + 6])]
  {
    hide NameOfLine, ValueOf, NamedValues;
    var all := ["via", "max-forwards"] + seq(n, _ => "route") + AFTER_ROUTES;
    OnlyValue(block, all, "max-forwards", 1);
    OnlyValue(block, all, "content-length", n + 6);
  }

  /** The field Route is the name "route". */
  lemma {:induction false} RouteValues(block: seq<string>)
    ensures NamedValues(block, "route") == All(block, Route)
  {
    hide ValueOf, NameOfLine, FieldOf;
    if block != [] {
      RouteValues(block[..|block| - 1]);
      RouteName(block[|block| - 1]);
    }
  }

  lemma RouteName(line: string)
    ensures NameOfLine(line) == Some("route") <==> FieldOf(line) == Route
  {
    hide Lower, Trim, SplitOnce;
  }
}
