/** The number and the branch of a pushed INVITE, read off its text: what the callee leg
    remembers is what went on the wire. */
module InviteNumbers {
  import opened Prelude
  import opened Text
  import opened SipMessage
  import opened SipBuilder
  import opened InviteRenewal
  import opened RenewedInvites
  import opened CalleeLeg
  import opened CalleeLegRuns

  // ------------------------------------------------------------------
  // The first CSeq line of a text
  // ------------------------------------------------------------------

  /** The first line that starts with `cseq:`, in any case. */
  ghost predicate FirstCseqAt(lines: seq<string>, k: nat) {
    k < |lines| && IsCseqLine(lines[k]) && forall j :: 0 <= j < k ==> !IsCseqLine(lines[j])
  }

  lemma CseqLineLength(line: string)
    requires IsCseqLine(line)
    ensures |line| >= 5
  {
    hide Lower;
    assert |"cseq" + ":"| == 5;
  }

  /** The number on the first such line, when it can be read. */
  ghost function WireCseq(raw: string): Option<nat> {
    var lines := Split(raw, CRLF);
    if k: nat :| FirstCseqAt(lines, k) then CseqLineLength(lines[k]); CseqNumber(lines[k][5..]) else None
  }

  lemma {:induction false} FirstLineIs(lines: seq<string>, k: nat)
    requires FirstCseqAt(lines, k)
    ensures FirstCseqLine(lines) == Some(lines[k])
  {
    hide Lower;
    assert "cseq" + ":" == "cseq:";
    if k > 0 { FirstLineIs(lines[1..], k - 1); }
  }

  lemma {:induction false} NoFirstLine(lines: seq<string>)
    requires forall j :: 0 <= j < |lines| ==> !IsCseqLine(lines[j])
    ensures FirstCseqLine(lines).None?
  {
    hide Lower;
    assert "cseq" + ":" == "cseq:";
    if lines != [] { NoFirstLine(lines[1..]); }
  }

  lemma {:induction false} FirstExists(lines: seq<string>, j: nat) returns (k: nat)
    requires j < |lines| && IsCseqLine(lines[j])
    ensures FirstCseqAt(lines, k)
  {
    hide IsCseqLine;
    k := 0;
    while !IsCseqLine(lines[k])
      invariant k <= j && forall i :: 0 <= i < k ==> !IsCseqLine(lines[i])
      decreases j - k
    {
      k := k + 1;
    }
  }

  /** The number of the text, as the first line that starts with `cseq:` has it. */
  lemma WireCseqAt(raw: string, k: nat)
    requires FirstCseqAt(Split(raw, CRLF), k)
    ensures |Split(raw, CRLF)[k]| >= 5 && WireCseq(raw) == CseqNumber(Split(raw, CRLF)[k][5..])
  {
    hide IsCseqLine, CseqNumber, Split;
    CseqLineLength(Split(raw, CRLF)[k]);
  }

  /** The attempt says what its text says: its number is the one the text carries, or 1 when
      it carries none that can be read, and its branch is that of the first Via. */
  ghost predicate SaysItsText(a: Attempt) {
    && a.cseq == (if WireCseq(a.raw).Some? then WireCseq(a.raw).value else 1)
    && a.branch == TopViaBranch(a.raw)
  }

  lemma NumberOfText(raw: string)
    ensures ParseCseqNumber(raw) == WireCseq(raw)
  {
    hide Split, NextWord, ParseU32, IsCseqLine, FirstCseqLine;
    var lines := Split(raw, CRLF);
    if j: nat :| j < |lines| && IsCseqLine(lines[j]) {
      var k := FirstExists(lines, j);
      WireCseqAt(raw, k);
      FirstLineIs(lines, k);
    } else {
      NoFirstLine(lines);
    }
  }

  /** Before anything was pushed, the next number is above that of the stored INVITE. */
  lemma AboveStoredText(c: Call, raw: string)
    requires c.attempts == [] && c.outboundInvite == Some(raw) && WireCseq(raw).Some?
    requires WireCseq(raw).value + 1 < U32 && LegCseq(c) + 1 < U32
    ensures NextOutboundCseq(c) == 1 + Max(WireCseq(raw).value, LegCseq(c))
  {
    hide ParseCseqNumber, WireCseq;
    NumberOfText(raw);
  }

  /** Every attempt does. */
  lemma AttemptSaysItsText(raw: string, dest: string, transport: string, trunk: Option<string>)
    ensures var a := AttemptOf(raw, dest, transport, trunk);
            SaysItsText(a) && a.raw == raw && a.dest == dest && a.transport == transport && a.trunk == trunk
  {
    hide ParseCseqNumber, WireCseq, TopViaBranch;
    NumberOfText(raw);
  }

  // ------------------------------------------------------------------
  // Texts that read as an INVITE
  // ------------------------------------------------------------------

  ghost predicate AllTouch(block: seq<string>) { forall k :: 0 <= k < |block| ==> Touches(block[k]) }

  lemma InviteStart(start: string)
    requires RequestUri(start, "INVITE").Some?
    ensures !IsCseqLine(start)
  {
    hide Lower, Find;
    var p := SplitOnce(start, " ").value;
    assert start == "INVITE" + " " + p.1 && start[0] == 'I';
    LowerFacts(start);
    assert Lower(start)[0] == LowerChar('I') && ("cseq" + ":")[0] == 'c';
  }

  lemma InviteLines(raw: string)
    requires ParseIdentity("INVITE", raw).Some?
    ensures !IsCseqLine(Split(raw, CRLF)[0])
    ensures First(HeaderBlock(Split(raw, CRLF)), CSeq).Some?
  {
    hide Split, IsCseqLine, First, Last, All, CseqNumber, ValueOf, HeaderBlock, RequestUri;
    InviteStart(Split(raw, CRLF)[0]);
    LastThenFirst(HeaderBlock(Split(raw, CRLF)));
  }

  lemma {:induction false} LastThenFirst(block: seq<string>)
    requires Last(block, CSeq).Some?
    ensures First(block, CSeq).Some?
  {
    hide FieldOf;
    if FieldOf(block[|block| - 1]) != CSeq { LastThenFirst(block[..|block| - 1]); }
  }

  lemma {:induction false} FirstIndex(block: seq<string>, f: Field) returns (i: nat)
    requires First(block, f).Some?
    ensures i < |block| && First(block, f) == Some(block[i]) && FieldOf(block[i]) == f
    ensures forall j :: 0 <= j < i ==> FieldOf(block[j]) != f
  {
    hide FieldOf, First;
    var w :| 0 <= w < |block| && block[w] == First(block, f).value;
    i := 0;
    while FieldOf(block[i]) != f
      invariant i <= w && forall j :: 0 <= j < i ==> FieldOf(block[j]) != f
      decreases w - i
    {
      i := i + 1;
    }
    FirstIs(block, f, i);
  }

  /** In a text that reads as an INVITE and whose header names touch their colon, the number
      is that of the first CSeq header. */
  lemma {:induction false} InviteNumber(raw: string)
    requires ParseIdentity("INVITE", raw).Some? && AllTouch(HeaderBlock(Split(raw, CRLF)))
    ensures var line := First(HeaderBlock(Split(raw, CRLF)), CSeq);
            line.Some? && WireCseq(raw) == CseqNumber(ValueOf(line.value))
  {
    hide Split, IsCseqLine, First, CseqNumber, FieldOf, Touches, ParseIdentity, WireCseq, AfterColon, BlockEnd, Trim;
    InviteLines(raw);
    var lines := Split(raw, CRLF);
    var block := HeaderBlock(lines);
    var i := FirstIndex(block, CSeq);
    forall j | 0 <= j <= i ensures lines[j + 1] == block[j] && (IsCseqLine(block[j]) <==> FieldOf(block[j]) == CSeq) {
      LineTests(block[j]);
    }
    assert FirstCseqAt(lines, i + 1) by {
      forall j | 0 <= j < i + 1 ensures !IsCseqLine(lines[j]) {
        if j > 0 { assert lines[j - 1 + 1] == block[j - 1]; }
      }
    }
    WireCseqAt(raw, i + 1);
    CseqLineShape(block[i]);
    PartsOfTrimmed(AfterColon(block[i]));
  }

  lemma RenewableTouch(block: seq<string>)
    requires AllRenewable(block)
    ensures AllTouch(block)
  {
    hide Renewable, Touches;
    forall k | 0 <= k < |block| ensures Touches(block[k]) { RenewableTouches(block[k]); }
  }

  lemma {:induction false} RenewedNumber(raw: string, br: string)
    requires ParseIdentity("INVITE", raw).Some? && IsBranch(br) && AllRenewable(HeaderBlock(Split(raw, CRLF)))
    ensures WireCseq(raw).Some? && WireCseq(Renew(raw, br)) == Some(WireCseq(raw).value + 1)
    ensures TopViaBranch(Renew(raw, br)) == Some(br)
  {
    hide Split, First, CseqNumber, ParseIdentity, WireCseq, AllRenewable, IsBranch, Renew, HeaderBlock, TopViaBranch,
      BlockKept, AllTouch, ValueOf, EndsCrlf, Find, RenewedIdentity, BodyOf;
    RenewalReads(raw, br);
    var a, b := HeaderBlock(Split(raw, CRLF)), HeaderBlock(Split(Renew(raw, br), CRLF));
    RenewableTouch(a);
    KeptTouch(a, b);
    InviteNumber(raw);
    InviteNumber(Renew(raw, br));
    FirstBumped(a, b);
  }

  /** Renewing an INVITE pushes the next number and the fresh branch. */
  lemma RenewedAttempt(raw: string, br: string, dest: string, transport: string, trunk: Option<string>)
    requires ParseIdentity("INVITE", raw).Some? && IsBranch(br) && AllRenewable(HeaderBlock(Split(raw, CRLF)))
    ensures WireCseq(raw).Some? && WireCseq(Renew(raw, br)) == Some(WireCseq(raw).value + 1)
    ensures AttemptOf(Renew(raw, br), dest, transport, trunk).cseq == AttemptOf(raw, dest, transport, trunk).cseq + 1
    ensures AttemptOf(Renew(raw, br), dest, transport, trunk).branch == Some(br)
  {
    hide Split, ParseIdentity, WireCseq, AllRenewable, IsBranch, Renew, HeaderBlock, TopViaBranch, AttemptOf;
    RenewedNumber(raw, br);
    AttemptSaysItsText(raw, dest, transport, trunk);
    AttemptSaysItsText(Renew(raw, br), dest, transport, trunk);
  }

  lemma KeptTouch(a: seq<string>, b: seq<string>)
    requires BlockKept(a, b)
    ensures AllTouch(b)
  {
    hide Touches, Bumped, FieldOf, IsLine;
    forall k | 0 <= k < |b| ensures Touches(b[k]) { assert LineKept(a[k], b[k]); }
  }

  lemma FirstBumped(a: seq<string>, b: seq<string>)
    requires BlockKept(a, b) && First(a, CSeq).Some?
    ensures First(b, CSeq).Some? && CseqNumber(ValueOf(First(a, CSeq).value)).Some?
    ensures CseqNumber(ValueOf(First(b, CSeq).value)) == Some(CseqNumber(ValueOf(First(a, CSeq).value)).value + 1)
  {
    hide Touches, FieldOf, IsLine, First, CseqNumber, ValueOf, CseqParts, Print;
    var i := FirstKept(a, b, CSeq);
    assert LineKept(a[i], b[i]);
  }

  // ------------------------------------------------------------------
  // INVITEs as this program prints them
  // ------------------------------------------------------------------

  /** The attempt pushed from the printed INVITE of a clean identity has exactly its number
      and its branch. */
  lemma {:induction false} PrintedAttempt(id: Identity, dest: string, transport: string, trunk: Option<string>)
    requires CleanIdentity(id)
    ensures var a := AttemptOf(RequestText("INVITE", id), dest, transport, trunk);
            a.cseq == id.cseq && a.branch == BranchOf(id.topVia)
  {
    hide Split, First, CseqNumber, ParseIdentity, WireCseq, HeaderBlock, TopViaBranch, AttemptOf, AllTouch, ValueOf,
      RequestText, IsVerb, CleanIdentity, BranchOf, Line, CseqValue, CarriesCseq, CseqParts, CleanValue, AfterColon;
    var raw := RequestText("INVITE", id);
    InviteWord();
    RequestRoundTrip("INVITE", id);
    PrintedBlock(id);
    InviteNumber(raw);
    CseqLineOf(id);
    AttemptSaysItsText(raw, dest, transport, trunk);
  }

  lemma CseqLineOf(id: Identity)
    requires CleanIdentity(id)
    ensures CseqNumber(ValueOf(Line(CSeq, CseqValue(id.cseq, "INVITE")))) == Some(id.cseq)
  {
    hide CseqNumber, ValueOf, Line, CseqValue, CseqParts, CleanValue, IsVerb, Find, AfterColon, FieldOf, IsLine;
    InviteWord();
    CseqValueReads(id.cseq, "INVITE");
    LineReads(CSeq, CseqValue(id.cseq, "INVITE"));
  }

  lemma {:induction false} PrintedBlock(id: Identity)
    requires CleanIdentity(id)
    ensures var block := HeaderBlock(Split(RequestText("INVITE", id), CRLF));
            AllTouch(block) && First(block, CSeq) == Some(Line(CSeq, CseqValue(id.cseq, "INVITE")))
  {
    hide Find, Split, Render, CleanValue, RequestHeaders, StartLine, HeaderBlock, IsVerb, First, Last, All, Line,
      AllTouch, CseqValue;
    InviteWord();
    RequestHeadersRead("INVITE", id);
    StartLineReads("INVITE", id.requestUri);
    RenderedBlock(StartLine("INVITE", id.requestUri), RequestHeaders("INVITE", id), "");
    HeadersTouch(id);
    FirstCseqHeader(id);
  }

  lemma HeadersTouch(id: Identity)
    ensures AllTouch(RequestHeaders("INVITE", id))
  {
    hide Touches, Line, RouteLines, MaxForwardsLine, ContentLengthLine, CseqValue;
    PrintedTouches(Via, id.topVia);
    PrintedTouches(From, id.from);
    PrintedTouches(To, id.to);
    PrintedTouches(CallId, id.callId);
    PrintedTouches(CSeq, CseqValue(id.cseq, "INVITE"));
    FixedTouch();
    RoutesTouch(id.routes);
  }

  lemma FixedTouch()
    ensures Touches(MaxForwardsLine()) && Touches(ContentLengthLine())
  {
    hide Touches, Header, Trimmed;
    FixedNames();
    HeaderTouches("Max-Forwards", "70");
    HeaderTouches("Content-Length", "0");
  }

  lemma {:induction false} RoutesTouch(routes: seq<string>)
    ensures AllTouch(RouteLines(routes))
  {
    hide Touches, Line;
    if routes != [] {
      RoutesTouch(routes[..|routes| - 1]);
      PrintedTouches(Route, routes[|routes| - 1]);
    }
  }

  lemma {:induction false} FirstCseqHeader(id: Identity)
    requires CleanIdentity(id)
    ensures First(RequestHeaders("INVITE", id), CSeq) == Some(Line(CSeq, CseqValue(id.cseq, "INVITE")))
  {
    hide FieldOf, ValueOf, IsLine, Line, CseqValue, CseqNumber, CleanValue, First, RouteLines, AfterColon, Find, IsVerb,
      MaxForwardsLine, ContentLengthLine, CseqParts, All;
    InviteWord();
    CseqValueReads(id.cseq, "INVITE");
    RouteLinesRead(id.routes);
    MaxForwardsReads();
    LineReads(Via, id.topVia);
    LineReads(From, id.from);
    LineReads(To, id.to);
    LineReads(CallId, id.callId);
    LineReads(CSeq, CseqValue(id.cseq, "INVITE"));
    var block := RequestHeaders("INVITE", id);
    var k := |RouteLines(id.routes)| + 5;
    assert block[k] == Line(CSeq, CseqValue(id.cseq, "INVITE"));
    FirstIs(block, CSeq, k);
  }

  /** And the attempt pushed from its renewal has the next number and the fresh branch. */
  lemma {:induction false} PrintedRenewedAttempt(id: Identity, br: string, dest: string, transport: string,
                                                 trunk: Option<string>)
    requires CleanIdentity(id) && id.cseq + 1 < U32 && IsBranch(br)
    ensures var a := AttemptOf(Renew(RequestText("INVITE", id), br), dest, transport, trunk);
            a.cseq == id.cseq + 1 && a.branch == Some(br)
  {
    hide CleanIdentity, IsBranch, RequestText, Renew, AttemptOf, AllRenewable, ParseIdentity, HeaderBlock, Split,
      WireCseq, TopViaBranch, BranchOf, CarriesCseq, IsVerb;
    InviteWord();
    RequestRoundTrip("INVITE", id);
    PrintedTextRenewable(id);
    RenewedAttempt(RequestText("INVITE", id), br, dest, transport, trunk);
    PrintedAttempt(id, dest, transport, trunk);
  }

  // ------------------------------------------------------------------
  // Over runs
  // ------------------------------------------------------------------

  /** In every run every attempt in the log says what its text says. */
  lemma {:induction false} RunSaysItsTexts(c: Call, evs: seq<Event>)
    ensures forall x :: x in Log(c, evs) && x.Pushed? ==> SaysItsText(x.attempt)
  {
    hide SaysItsText;
    if evs != [] {
      var n := |evs| - 1;
      RunSaysItsTexts(c, evs[..n]);
      EntriesSayTheirTexts(Run(c, evs[..n]), evs[n]);
    }
  }

  lemma EntriesSayTheirTexts(c: Call, e: Event)
    ensures forall x :: x in Entries(c, e) && x.Pushed? ==> SaysItsText(x.attempt)
  {
    hide SaysItsText, AttemptOf, DialogTowardCallee, DialogTowardCaller, SdpOf, NextOutboundCseq;
    if e.EPush? { AttemptSaysItsText(e.raw, e.dest, e.transport, e.trunk); }
  }

  /** The number is above the one on the wire of every INVITE pushed before. */
  ghost predicate AboveWire(log: seq<Entry>, n: nat) {
    forall x :: x in log && x.Pushed? && WireCseq(x.attempt.raw).Some? ==> WireCseq(x.attempt.raw).value < n
  }

  /** What is above the remembered numbers is above those on the wire. */
  lemma AboveWhatWasSent(c: Call, evs: seq<Event>, n: nat)
    requires forall x :: x in Log(c, evs) && CalleeCseq(x).Some? ==> CalleeCseq(x).value < n
    ensures AboveWire(Log(c, evs), n)
  {
    hide Log, WireCseq, TopViaBranch;
    RunSaysItsTexts(c, evs);
  }

  /** The number discipline as it shows on the wire: over every disciplined run, each request
      of the SBC toward the callee is numbered above the number every INVITE pushed before
      it carries in its text. */
  lemma WireDiscipline(c: Call, evs: seq<Event>)
    requires IsNew(c) && Disciplined(Log(c, evs))
    ensures var log := Log(c, evs);
            forall i, j :: 0 <= i < j < |log| && log[i].Pushed? && SbcToCallee(log[j])
                           && WireCseq(log[i].attempt.raw).Some? ==>
              WireCseq(log[i].attempt.raw).value < log[j].cseq
  {
    hide Log, WireCseq, TopViaBranch, Disciplined;
    CseqDiscipline(c, evs);
    RunSaysItsTexts(c, evs);
    var log := Log(c, evs);
    forall i, j | 0 <= i < j < |log| && log[i].Pushed? && SbcToCallee(log[j]) && WireCseq(log[i].attempt.raw).Some?
      ensures WireCseq(log[i].attempt.raw).value < log[j].cseq
    {
      assert log[i] in log && SaysItsText(log[i].attempt);
      PushedCseq(log[i].attempt);
    }
  }
}
