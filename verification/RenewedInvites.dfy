/** What renewing an INVITE means for every text that can be read as one, with or without
    a blank line, and for the INVITEs the program prints itself. */
module RenewedInvites {
  import opened Prelude
  import opened Text
  import opened SipMessage
  import opened SipBuilder
  import opened InviteRenewal

  // ------------------------------------------------------------------
  // Texts without a blank line
  // ------------------------------------------------------------------

  predicate EndsCrlf(s: string) { CrlfAt(s, |s| - 2) }

  /** The text with its head closed. */
  function ClosedText(raw: string): string { raw + (CRLF + CRLF + "") }

  lemma {:induction false} NoBlankInside(raw: string)
    requires Find(raw, BLANK_LINE).None?
    ensures forall j :: !BlankAt(raw, j)
  {
    hide Find;
    FindNothing(raw, BLANK_LINE);
    forall j ensures !BlankAt(raw, j) {
      if 0 <= j <= |raw| { OccursBlank(raw, j); }
    }
  }

  /** Closing a head that does not end in a line end puts the blank line right after it. */
  lemma {:induction false} ClosedAt(raw: string)
    requires Find(raw, BLANK_LINE).None? && !EndsCrlf(raw)
    ensures Find(ClosedText(raw), BLANK_LINE) == Some(|raw|)
  {
    hide Find;
    NoBlankInside(raw);
    var s := ClosedText(raw);
    assert |s| == |raw| + 4;
    assert forall k :: 0 <= k < |raw| ==> s[k] == raw[k];
    assert s[|raw|] == '\r' && s[|raw| + 1] == '\n' && s[|raw| + 2] == '\r' && s[|raw| + 3] == '\n';
    forall j | 0 <= j < |raw| ensures !BlankAt(s, j) {
      assert !BlankAt(raw, j);
      if j == |raw| - 2 { assert !CrlfAt(raw, j); }
    }
    FindBlank(s, |raw|);
  }

  lemma ClosedParts(raw: string)
    requires Find(raw, BLANK_LINE).None? && Find(ClosedText(raw), BLANK_LINE) == Some(|raw|)
    ensures HeadOf(ClosedText(raw)) == raw == HeadOf(raw) && BodyOf(ClosedText(raw)) == "" == BodyOf(raw)
  {
    hide Find;
    assert ClosedText(raw)[..|raw|] == raw;
  }

  /** Empty lines after the text do not reach its header block. */
  lemma {:induction false} BlockEndAppend(lines: seq<string>, tail: seq<string>, i: nat)
    requires i <= |lines| && tail != [] && tail[0] == ""
    ensures BlockEnd(lines + tail, i) == BlockEnd(lines, i)
    decreases |lines| - i
  {
    if i < |lines| && lines[i] != "" { BlockEndAppend(lines, tail, i + 1); }
  }

  lemma {:induction false} BlockAppend(lines: seq<string>, tail: seq<string>)
    requires |lines| >= 1 && tail != [] && tail[0] == ""
    ensures HeaderBlock(lines + tail) == HeaderBlock(lines)
  {
    hide BlockEnd;
    BlockEndAppend(lines, tail, 1);
    var e := BlockEnd(lines, 1);
    assert (lines + tail)[1..e] == lines[1..e];
  }

  /** A line end after the text adds an empty line. */
  lemma {:induction false} SplitLineEnd(s: string)
    ensures Split(s + CRLF, CRLF) == Split(s, CRLF) + [""]
  {
    hide Split, Find;
    CrlfUnbordered();
    SplitAppend(s, CRLF, "");
    NoCrlfInEmpty();
    SplitLine("");
    assert s + CRLF + "" == s + CRLF;
  }

  lemma {:induction false} SameReading(s: string)
    ensures HeaderBlock(Split(s + CRLF, CRLF)) == HeaderBlock(Split(s, CRLF))
    ensures ParseIdentity("INVITE", s + CRLF) == ParseIdentity("INVITE", s)
    ensures TopViaBranch(s + CRLF) == TopViaBranch(s)
  {
    hide Split, HeaderBlock, IdentityOf, TopViaBranchOf;
    SplitLineEnd(s);
    BlockAppend(Split(s, CRLF), [""]);
  }

  lemma {:induction false} ClosedReading(raw: string)
    ensures HeaderBlock(Split(ClosedText(raw), CRLF)) == HeaderBlock(Split(raw, CRLF))
    ensures ParseIdentity("INVITE", ClosedText(raw)) == ParseIdentity("INVITE", raw)
  {
    hide Split, HeaderBlock, ParseIdentity, TopViaBranch;
    SameReading(raw);
    SameReading(raw + CRLF);
    assert ClosedText(raw) == raw + CRLF + CRLF;
  }

  /** A bare head that does not end in a line end renews like the closed one. */
  lemma {:induction false} BareRenewal(raw: string, br: string)
    requires Find(raw, BLANK_LINE).None? && !EndsCrlf(raw)
    requires ParseIdentity("INVITE", raw).Some? && IsBranch(br) && AllRenewable(HeaderBlock(Split(raw, CRLF)))
    ensures var block := HeaderBlock(Split(raw, CRLF));
            First(block, Via).Some?
            && ParseIdentity("INVITE", Renew(raw, br))
               == Some(RenewedIdentity(ParseIdentity("INVITE", raw).value, block, br))
    ensures TopViaBranch(Renew(raw, br)) == Some(br)
    ensures Find(Renew(raw, br), BLANK_LINE).Some? && BodyOf(Renew(raw, br)) == ""
    ensures BlockKept(HeaderBlock(Split(raw, CRLF)), HeaderBlock(Split(Renew(raw, br), CRLF)))
  {
    hide BlockKept, Find, Split, HeaderBlock, ParseIdentity, TopViaBranch, First, AllRenewable, IsBranch, RenewedLines,
      ClosedText;
    ClosedAt(raw);
    ClosedParts(raw);
    ClosedReading(raw);
    assert Renew(ClosedText(raw), br) == Renew(raw, br);
    RenewalWithBlankLine(ClosedText(raw), br);
  }

  lemma {:induction false} JoinSnoc(ls: seq<string>)
    requires |ls| >= 1
    ensures Join(ls + [""], CRLF) == Join(ls, CRLF) + CRLF
  {
    if |ls| == 1 {
      assert (ls + [""])[1..] == [""];
      assert Join([""], CRLF) == "";
      assert ls[0] + CRLF + "" == ls[0] + CRLF;
    } else {
      assert (ls + [""])[1..] == ls[1..] + [""];
      JoinSnoc(ls[1..]);
      ThreeParts(ls[0] + CRLF, Join(ls[1..], CRLF), CRLF);
    }
  }

  lemma EmptyLineKept()
    ensures !IsViaLine("") && !IsCseqLine("")
  {
    assert Lower("") == "";
  }

  lemma {:induction false} RenewedSnoc(lines: seq<string>, br: string)
    requires |lines| >= 1
    ensures RenewedLines(lines + [""], br) == RenewedLines(lines, br) + [""]
  {
    hide IsViaLine, IsCseqLine, Rebranched, Bump;
    EmptyLineKept();
    var l := lines + [""];
    forall k | 0 <= k < |lines| ensures RenewedLine(l, k, br) == RenewedLine(lines, k, br) {
      assert ViaBefore(l, k) <==> ViaBefore(lines, k) by {
        assert forall j :: 1 <= j < k ==> l[j] == lines[j];
      }
    }
  }

  lemma LineEndMoves(a: string)
    ensures (a + CRLF) + (CRLF + CRLF + "") == (a + (CRLF + CRLF + "")) + CRLF
  {
  }

  /** With a line end after a bare head, the renewed text has one too, as its body. */
  lemma {:induction false} RenewLineEnd(raw: string, br: string)
    requires Find(raw, BLANK_LINE).None? && Find(raw + CRLF, BLANK_LINE).None?
    ensures Renew(raw + CRLF, br) == Renew(raw, br) + CRLF
  {
    hide Find, Split, Join, RenewedLines;
    SplitLineEnd(raw);
    RenewedSnoc(Split(raw, CRLF), br);
    var ls := RenewedLines(Split(raw, CRLF), br);
    JoinSnoc(ls);
    LineEndMoves(Join(ls, CRLF));
  }

  lemma {:induction false} ShorterBare(raw: string) returns (head: string)
    requires Find(raw, BLANK_LINE).None? && EndsCrlf(raw)
    ensures raw == head + CRLF && Find(head, BLANK_LINE).None? && !EndsCrlf(head)
  {
    hide Find;
    head := raw[..|raw| - 2];
    assert raw[|raw| - 2..] == CRLF;
    assert raw == head + raw[|raw| - 2..];
    SliceClean(raw, BLANK_LINE, 0, |raw| - 2);
    assert raw[0..|raw| - 2] == head;
    NoBlankInside(raw);
    assert !BlankAt(raw, |raw| - 4);
  }

  lemma {:induction false} BodyWithLineEnd(text: string)
    requires Find(text, BLANK_LINE).Some?
    ensures Find(text + CRLF, BLANK_LINE) == Find(text, BLANK_LINE) && BodyOf(text + CRLF) == BodyOf(text) + CRLF
  {
    hide Find;
    FindPrefix(text, BLANK_LINE, CRLF);
    FindFits(text, BLANK_LINE);
    var i := Find(text, BLANK_LINE).value + 4;
    assert (text + CRLF)[i..] == text[i..] + CRLF;
  }

  /** Line by line, the header block of the renewed text is the renewal of the original's. */
  lemma {:induction false} RenewalReads(raw: string, br: string)
    requires ParseIdentity("INVITE", raw).Some? && IsBranch(br) && AllRenewable(HeaderBlock(Split(raw, CRLF)))
    ensures var block := HeaderBlock(Split(raw, CRLF));
            First(block, Via).Some?
            && ParseIdentity("INVITE", Renew(raw, br))
               == Some(RenewedIdentity(ParseIdentity("INVITE", raw).value, block, br))
    ensures TopViaBranch(Renew(raw, br)) == Some(br)
    ensures BodyOf(Renew(raw, br)) == BodyOf(raw) <==> Find(raw, BLANK_LINE).Some? || !EndsCrlf(raw)
    ensures BlockKept(HeaderBlock(Split(raw, CRLF)), HeaderBlock(Split(Renew(raw, br), CRLF)))
  {
    hide Find, Split, HeaderBlock, ParseIdentity, TopViaBranch, First, AllRenewable, IsBranch, Renew, EndsCrlf,
      BlockKept;
    if Find(raw, BLANK_LINE).Some? {
      RenewalWithBlankLine(raw, br);
    } else if !EndsCrlf(raw) {
      BareRenewal(raw, br);
    } else {
      var head := ShorterBare(raw);
      SameReading(head);
      BareRenewal(head, br);
      RenewLineEnd(head, br);
      SameReading(Renew(head, br));
      BodyWithLineEnd(Renew(head, br));
      assert BodyOf(raw) == "" && BodyOf(Renew(raw, br)) == "" + CRLF;
    }
  }

  /** Renewing any text that reads as an INVITE, whose header names touch their colon and
      whose CSeq reads as number and method: the same URI, From, To, Call-ID and Routes,
      the next CSeq number with the same method, the top Via with the fresh branch in the
      place of its own, and every header under another name as it was. The body is kept
      byte for byte if and only if the text has a blank line or does not end in a line
      end: a bare head that does gets that line end as its body. */
  lemma {:induction false} RenewalKeepsRequest(raw: string, br: string, low: string)
    requires ParseIdentity("INVITE", raw).Some? && IsBranch(br) && AllRenewable(HeaderBlock(Split(raw, CRLF)))
    ensures var block := HeaderBlock(Split(raw, CRLF));
            First(block, Via).Some?
            && ParseIdentity("INVITE", Renew(raw, br))
               == Some(RenewedIdentity(ParseIdentity("INVITE", raw).value, block, br))
    ensures var line := Last(HeaderBlock(Split(raw, CRLF)), CSeq);
            && line.Some? && CseqParts(ValueOf(line.value)).Some?
            && var p := CseqParts(ValueOf(line.value)).value; CarriesCseq(Renew(raw, br), p.0 + 1, p.1)
    ensures low != "via" && low != "v" && low != "cseq" ==> HeaderValues(Renew(raw, br), low) == HeaderValues(raw, low)
    ensures TopViaBranch(Renew(raw, br)) == Some(br)
    ensures BodyOf(Renew(raw, br)) == BodyOf(raw) <==> Find(raw, BLANK_LINE).Some? || !EndsCrlf(raw)
  {
    hide Find, Split, HeaderBlock, TopViaBranch, AllRenewable, IsBranch, Renew, EndsCrlf, BlockKept, ValueOf, CseqParts,
      Last, First, ParseIdentity, CarriesCseq, HeaderValues, BodyOf, RenewedIdentity;
    RenewalReads(raw, br);
    HeadersKept(raw, Renew(raw, br), low);
  }

  /** What two texts with matching header blocks carry. */
  lemma HeadersKept(raw: string, renewed: string, low: string)
    requires ParseIdentity("INVITE", raw).Some?
    requires BlockKept(HeaderBlock(Split(raw, CRLF)), HeaderBlock(Split(renewed, CRLF)))
    ensures var line := Last(HeaderBlock(Split(raw, CRLF)), CSeq);
            && line.Some? && CseqParts(ValueOf(line.value)).Some?
            && var p := CseqParts(ValueOf(line.value)).value; CarriesCseq(renewed, p.0 + 1, p.1)
    ensures low != "via" && low != "v" && low != "cseq" ==> HeaderValues(renewed, low) == HeaderValues(raw, low)
  {
    hide Split, HeaderBlock, BlockKept, ValueOf, CseqParts, Last, ParseIdentity, NamedValues, Print, FieldOf, IsLine;
    var a, b := HeaderBlock(Split(raw, CRLF)), HeaderBlock(Split(renewed, CRLF));
    HasCseq(raw);
    CseqKept(a, b);
    if low != "via" && low != "v" && low != "cseq" { ValuesKept(a, b, low); }
  }

  lemma HasCseq(raw: string)
    requires ParseIdentity("INVITE", raw).Some?
    ensures Last(HeaderBlock(Split(raw, CRLF)), CSeq).Some?
  {
    hide Split, HeaderBlock, First, Last, All, ValueOf, CseqNumber, RequestUri;
  }

  // ------------------------------------------------------------------
  // INVITEs as this program prints them
  // ------------------------------------------------------------------

  lemma PrintedCseqParts(n: nat)
    requires n < U32
    ensures CseqParts(" " + CseqValue(n, "INVITE")) == Some((n, "INVITE"))
  {
    hide NextWord, ParseU32, Print;
    var p, m := Print(n), "INVITE";
    DigitsNotWhite(p);
    InviteWord();
    OneBlank();
    ThreeParts(" ", p, " " + m);
    NextWordIs(" ", p, " " + m);
    assert " " + m + "" == " " + m;
    NextWordIs(" ", m, "");
    ParsePrint(n);
  }

  lemma InviteWord()
    ensures IsVerb("INVITE") && forall j :: 0 <= j < |"INVITE"| ==> !IsWhite("INVITE"[j])
  {
    hide IsWhite;
    NotWhite();
  }

  lemma {:induction false} RoutesRenewable(routes: seq<string>)
    requires forall k :: 0 <= k < |routes| ==> CleanValue(routes[k])
    ensures AllRenewable(RouteLines(routes))
  {
    hide CleanValue, Line, Renewable;
    if routes != [] {
      var n := |routes| - 1;
      RoutesRenewable(routes[..n]);
      LineRenewable(Route, routes[n]);
    }
  }

  lemma LineRenewable(f: Field, value: string)
    requires f != Other && f != CSeq && CleanValue(value)
    ensures Renewable(Line(f, value))
  {
    hide CleanValue, Line, IsLine, Touches, FieldOf, AfterColon;
    LineReads(f, value);
    PrintedTouches(f, value);
  }

  lemma CseqRenewable(n: nat)
    requires n + 1 < U32
    ensures Renewable(Line(CSeq, CseqValue(n, "INVITE")))
  {
    hide CleanValue, Line, IsLine, Touches, FieldOf, AfterColon, CseqValue, CseqParts, IsVerb;
    InviteWord();
    CseqValueReads(n, "INVITE");
    LineReads(CSeq, CseqValue(n, "INVITE"));
    PrintedTouches(CSeq, CseqValue(n, "INVITE"));
    PrintedCseqParts(n);
  }

  lemma FixedLinesRenewable()
    ensures Renewable(MaxForwardsLine()) && Renewable(ContentLengthLine())
  {
    hide IsLine, FieldOf, Touches, CseqParts;
    MaxForwardsReads();
    ContentLengthReads();
    FixedNames();
    HeaderTouches("Max-Forwards", "70");
    HeaderTouches("Content-Length", "0");
  }

  lemma FixedNames()
    ensures ':' !in "Max-Forwards" && Trimmed("Max-Forwards") && ':' !in "Content-Length" && Trimmed("Content-Length")
  {
  }

  /** Every INVITE printed from a clean identity can be renewed, and its renewal is the
      same request with the next CSeq number, still an INVITE, and the fresh branch. */
  lemma {:induction false} PrintedInviteRenews(id: Identity, br: string)
    requires CleanIdentity(id) && id.cseq + 1 < U32 && IsBranch(br)
    ensures var raw := RequestText("INVITE", id);
            var renewed := ParseIdentity("INVITE", Renew(raw, br));
            && renewed.Some? && renewed.value == id.(topVia := renewed.value.topVia, cseq := id.cseq + 1)
            && TopViaBranch(Renew(raw, br)) == Some(br) && CarriesCseq(Renew(raw, br), id.cseq + 1, "INVITE")
  {
    hide CseqParts, ValueOf, Last, Find, Split, IsBranch, AllRenewable, ParseIdentity, TopViaBranch, Renew, CleanValue,
      RequestText, CleanIdentity;
    hide HeaderBlock, IsVerb, First, Trim, Rebranched, AfterColon, BranchOf;
    InviteWord();
    RequestRoundTrip("INVITE", id);
    PrintedTextRenewable(id);
    RenewalKeepsRequest(RequestText("INVITE", id), br, "");
  }

  lemma {:induction false} PrintedTextRenewable(id: Identity)
    requires CleanIdentity(id) && id.cseq + 1 < U32
    ensures AllRenewable(HeaderBlock(Split(RequestText("INVITE", id), CRLF)))
  {
    hide Find, Split, Render, AllRenewable, CleanValue, RequestHeaders, StartLine, HeaderBlock, IsVerb, First, Last,
      All, Line;
    InviteWord();
    RequestHeadersRead("INVITE", id);
    StartLineReads("INVITE", id.requestUri);
    RenderedBlock(StartLine("INVITE", id.requestUri), RequestHeaders("INVITE", id), "");
    PrintedBlockRenewable(id);
  }

  lemma PrintedBlockRenewable(id: Identity)
    requires CleanIdentity(id) && id.cseq + 1 < U32
    ensures AllRenewable(RequestHeaders("INVITE", id))
  {
    hide Renewable, CleanValue, Line, RouteLines, MaxForwardsLine, ContentLengthLine, CseqValue, Find;
    LineRenewable(Via, id.topVia);
    LineRenewable(From, id.from);
    LineRenewable(To, id.to);
    LineRenewable(CallId, id.callId);
    CseqRenewable(id.cseq);
    FixedLinesRenewable();
    RoutesRenewable(id.routes);
  }
}
