/** Outbound hiding as others see it: the SBC's own lines letter by letter, that nothing of
    the sender is left under any spelling of the hidden names, that the builder reads the
    fresh branch back, and how folded and bare-line-feed texts are read. */
module TopologyWire {
  import opened Prelude
  import opened Text
  import opened Topology
  import opened TopologyHiding
  import SipMessage
  import SipBuilder
  import InDialogRequests

  // ------------------------------------------------------------------
  // The SBC's own lines
  // ------------------------------------------------------------------

  /** The Via, Contact and Record-Route the SBC puts on a request: its public address and port,
      its domain (the port left out when it is 5060 without TLS), `sips` and
      `transport=tls` exactly with TLS, the transport in capitals, the fresh branch. */
  lemma OwnLinesAre(id: SbcIdentity, transport: string, branch: string)
    ensures ViaLine(id, transport, branch)
            == "Via: " + ("SIP/2.0/" + Upper(transport) + " " + id.publicIp + ":" + Print(id.sipPort)
                          + ";branch=" + branch)
    ensures ContactLine(id)
            == "Contact: <" + (if id.tls then "sips:sbc@" + id.publicIp + ":" + Print(id.sipPort) + ";transport=tls"
                               else "sip:sbc@" + id.publicIp + ":" + Print(id.sipPort)) + ">"
    ensures RecordRouteLine(id)
            == "Record-Route: " + (if id.tls then "<" + ("sips:" + id.sipDomain + ":" + Print(id.sipPort))
                                                  + ";transport=tls;lr>"
                                   else "<" + ("sip:" + id.sipDomain
                                               + (if id.sipPort == 5060 then "" else ":" + Print(id.sipPort))) + ";lr>")
  {
    hide Print, Upper;
    var s := "sip:" + id.sipDomain;
    assert s + "" == s;
    assert s + (":" + Print(id.sipPort)) == s + ":" + Print(id.sipPort);
  }

  // ------------------------------------------------------------------
  // Every spelling
  // ------------------------------------------------------------------

  /** The names, long and compact, that are replaced or dropped. */
  const SPELLINGS := {"via", "v", "contact", "m", "record-route", "route"}

  lemma SpellingIsHidden(h: string)
    requires WrittenName(h).Some? && WrittenName(h).value in SPELLINGS
    ensures NameOf(h).Some? && NameOf(h).value in HIDDEN
  {
    hide WrittenName;
  }

  lemma {:induction false} OthersAreOther(hs: seq<string>, names: set<string>)
    ensures forall h :: h in Others(hs, names) ==> h in hs && !(NameOf(h).Some? && NameOf(h).value in names)
  {
    hide NameOf;
    if hs != [] { OthersAreOther(hs[1..], names); }
  }

  /** Nothing the sender said under a hidden name, spelled long or compact, in any case, goes
      out: whatever line of the produced text has such a name is one of the SBC's own. */
  lemma NothingLeaks(raw: string, id: SbcIdentity, transport: string, branch: string, h: string)
    requires !("SIP/2.0" <= Parse(raw).start) && Clean(id, transport, branch)
    requires h in Parse(OutboundText(raw, id, transport, branch)).headers
    requires WrittenName(h).Some? && WrittenName(h).value in SPELLINGS
    ensures h in {RecordRouteLine(id), ViaLine(id, transport, branch), ContactLine(id)}
  {
    hide Parse, OutboundText, Others, Count, Decremented, NameOf, WrittenName, MaxForwards, Clean, ViaLine, ContactLine,
      RecordRouteLine;
    OutboundHides(raw, id, transport, branch);
    SpellingIsHidden(h);
    OthersAreOther(Decremented(Parse(raw).headers).0, HIDDEN);
  }

  // ------------------------------------------------------------------
  // The builder reads the branch back
  // ------------------------------------------------------------------

  lemma FieldsOfOwn(id: SbcIdentity, transport: string, branch: string)
    ensures SipBuilder.FieldOf(RecordRouteLine(id)) == SipBuilder.Other
    ensures SipBuilder.FieldOf(ViaLine(id, transport, branch)) == SipBuilder.Via
    ensures SipBuilder.AfterColon(ViaLine(id, transport, branch)) == " " + id.ViaValue(transport, branch)
  {
    hide SipBuilder.FieldOf, SipBuilder.AfterColon, SipBuilder.FieldNamed, SipBuilder.ValueOf, SipBuilder.NameOfLine;
    hide Lower, Trimmed, Print, Upper;
    OwnNames();
    AsHeaders(id.RecordRoute(), id.ViaValue(transport, branch));
    SipBuilder.HeaderParts("Record-Route", id.RecordRoute());
    SipBuilder.HeaderParts("Via", id.ViaValue(transport, branch));
    SipBuilder.LongName("Record-Route");
  }

  lemma AsHeaders(route: string, via: string)
    ensures "Record-Route: " + route == SipBuilder.Header("Record-Route", route)
    ensures "Via: " + via == SipBuilder.Header("Via", via)
  {
    assert "Record-Route: " + route == "Record-Route" + ":" + (" " + route);
    assert "Via: " + via == "Via" + ":" + (" " + via);
  }

  lemma OwnNames()
    ensures ':' !in "Via" && Trimmed("Via") && ':' !in "Record-Route" && Trimmed("Record-Route")
    ensures SipBuilder.FieldNamed(Lower("Via")) == SipBuilder.Via
  {
    hide Lower;
    LowerIs("Via", "via");
  }

  /** The front of the SBC's Via value, up to its branch. */
  function Front(id: SbcIdentity, transport: string): string {
    "SIP/2.0/" + Upper(transport) + " " + id.publicIp + ":" + Print(id.sipPort) + ";"
  }

  lemma ViaValueIs(id: SbcIdentity, transport: string, branch: string)
    ensures id.ViaValue(transport, branch) == Front(id, transport) + (SipBuilder.BRANCH + branch)
  {
    hide Print, Upper;
    var x := "SIP/2.0/" + Upper(transport) + " " + id.publicIp + ":" + Print(id.sipPort);
    assert ";branch=" == ";" + SipBuilder.BRANCH;
    assert x + ";branch=" + branch == x + ";" + (SipBuilder.BRANCH + branch);
  }

  lemma FrontHasNoEquals(id: SbcIdentity, transport: string)
    requires '=' !in transport && '=' !in id.publicIp
    ensures '=' !in Front(id, transport)
  {
    hide Print, Upper;
    var p := Print(id.sipPort);
    assert forall i :: 0 <= i < |p| ==> IsDigit(p[i]);
    var a := "SIP/2.0/" + Upper(transport) + " ";
    assert '=' !in a;
    var b := a + id.publicIp + ":";
    assert '=' !in b;
  }

  lemma {:induction false} ViaBranch(id: SbcIdentity, transport: string, branch: string)
    requires '=' !in transport && '=' !in id.publicIp
    requires branch != "" && forall j :: 0 <= j < |branch| ==> !SipBuilder.EndsBranch(branch[j])
    ensures SipBuilder.BranchOf(id.ViaValue(transport, branch)) == Some(branch)
  {
    hide Find, Front, Trim, SipBuilder.BranchToken, SipBuilder.EndsBranch;
    ViaValueIs(id, transport, branch);
    FrontHasNoEquals(id, transport);
    var front := Front(id, transport);
    InDialogRequests.BranchAfterFront(front, branch);
    InDialogRequests.AfterBranch(front, branch);
    assert branch + "" == branch;
    SipBuilder.BranchTokenIs(branch, "");
    InDialogRequests.TokenTrimmed(branch);
  }

  /** What the call manager reads off a request that was sent out through hiding is the fresh
      branch, so the answers to it are found. */
  lemma {:induction false} HiddenBranchReads(raw: string, id: SbcIdentity, transport: string, branch: string)
    requires !("SIP/2.0" <= Parse(raw).start) && Clean(id, transport, branch)
    requires '=' !in transport && '=' !in id.publicIp
    requires branch != "" && forall j :: 0 <= j < |branch| ==> !SipBuilder.EndsBranch(branch[j])
    ensures SipBuilder.TopViaBranch(OutboundText(raw, id, transport, branch)) == Some(branch)
  {
    hide Parse, Others, Decremented, ViaLine, ContactLine, RecordRouteLine, WellFormed, Clean, Find, Split,
      SipBuilder.HeaderBlock, SipBuilder.First, SipBuilder.FieldOf, SipBuilder.AfterColon, SipBuilder.BranchOf,
      SipMessage.Render, SipBuilder.EndsBranch, Without, SipMessage.IsLine;
    var m := Parse(raw);
    var out := Outbound(m, id, transport, branch);
    ParsedIsWellFormed(raw);
    OutboundWellFormed(m, id, transport, branch);
    OutboundHeaders(m, id, transport, branch);
    FieldsOfOwn(id, transport, branch);
    LinesOfMessage(out);
    SipBuilder.RenderedBlock(out.start, out.headers, out.body);
    assert out.headers[0] == RecordRouteLine(id) && out.headers[1] == ViaLine(id, transport, branch);
    SipBuilder.FirstIs(out.headers, SipBuilder.Via, 1);
    ViaBranch(id, transport, branch);
    SipBuilder.BranchTrimmed(id.ViaValue(transport, branch));
  }

  lemma LinesOfMessage(m: Message)
    requires WellFormed(m)
    ensures Find(m.start, CRLF).None? && SipMessage.AreLines(m.headers)
  {
    hide Find;
    NoLfNoCrlf(m.start);
    forall k | 0 <= k < |m.headers| ensures SipMessage.IsLine(m.headers[k]) { NoLfNoCrlf(m.headers[k]); }
  }

  // ------------------------------------------------------------------
  // Folded headers
  // ------------------------------------------------------------------

  /** A header as a sender may fold it: its first line and the lines it continues on. */
  datatype Fold = Fold(first: string, more: seq<string>)

  predicate FoldOk(f: Fold) {
    && f.first != "" && f.first[0] != ' ' && f.first[0] != '\t' && '\n' !in f.first
    && forall k :: 0 <= k < |f.more| ==>
         f.more[k] != "" && (f.more[k][0] == ' ' || f.more[k][0] == '\t') && '\n' !in f.more[k]
  }

  predicate FoldsOk(fs: seq<Fold>) { forall k :: 0 <= k < |fs| ==> FoldOk(fs[k]) }

  /** The lines of folded headers. */
  function FoldLines(fs: seq<Fold>): seq<string> {
    if fs == [] then [] else [fs[0].first] + fs[0].more + FoldLines(fs[1..])
  }

  /** A header on one line: every continuation after one blank, its own blanks trimmed. */
  function Unfolded(line: string, more: seq<string>): string
    decreases |more|
  {
    if more == [] then line else Unfolded(line + " " + Trim(more[0]), more[1..])
  }

  function UnfoldedAll(fs: seq<Fold>): (r: seq<string>)
    ensures |r| == |fs|
  {
    seq(|fs|, k requires 0 <= k < |fs| => Unfolded(fs[k].first, fs[k].more))
  }

  lemma {:induction false} UnfoldMore(more: seq<string>, rest: seq<string>, done: seq<string>, line: string)
    requires forall k :: 0 <= k < |more| ==> Folded(more[k])
    ensures Unfold(more + rest, done, Some(line)) == Unfold(rest, done, Some(Unfolded(line, more)))
    decreases |more|
  {
    hide Trim;
    if more == [] {
      assert more + rest == rest;
    } else {
      assert (more + rest)[1..] == more[1..] + rest;
      UnfoldMore(more[1..], rest, done, line + " " + Trim(more[0]));
    }
  }

  lemma {:induction false} UnfoldFolds(fs: seq<Fold>, done: seq<string>, open: Option<string>)
    requires FoldsOk(fs)
    ensures Unfold(FoldLines(fs), done, open) == Close(done, open) + UnfoldedAll(fs)
    decreases |fs|
  {
    hide Trim, Unfolded;
    if fs == [] {
      assert UnfoldedAll(fs) == [];
    } else {
      var f, lines := fs[0], FoldLines(fs);
      assert lines[1..] == f.more + FoldLines(fs[1..]);
      UnfoldMore(f.more, FoldLines(fs[1..]), Close(done, open), f.first);
      UnfoldFolds(fs[1..], Close(done, open), Some(Unfolded(f.first, f.more)));
      assert UnfoldedAll(fs) == [Unfolded(f.first, f.more)] + UnfoldedAll(fs[1..]);
    }
  }

  lemma {:induction false} FoldLinesClean(fs: seq<Fold>)
    requires FoldsOk(fs)
    ensures forall k :: 0 <= k < |FoldLines(fs)| ==> FoldLines(fs)[k] != "" && '\n' !in FoldLines(fs)[k]
  {
    if fs != [] { FoldLinesClean(fs[1..]); }
  }

  /** A message with folded headers is read as the one with each of them on one line. */
  lemma {:induction false} FoldedReads(start: string, fs: seq<Fold>, body: string)
    requires Trimmed(start) && '\r' !in start && '\n' !in start && FoldsOk(fs)
    ensures Parse(Render(Message(start, FoldLines(fs), body))) == Message(start, UnfoldedAll(fs), body)
  {
    hide Find, Trim, Join, SipMessage.Render, HeadBody, Unfold, UnfoldedAll, FoldLines, Lines, AfterFirst, UntilLineEnd,
      Trimmed;
    var lines := FoldLines(fs);
    FoldLinesClean(fs);
    NoLfNoCrlf(start);
    forall k | 0 <= k < |lines| ensures SipMessage.IsLine(lines[k]) { NoLfNoCrlf(lines[k]); }
    SipMessage.RenderBody(start, lines, body);
    HeadBodyAt(Join([start] + lines, CRLF), body);
    var rest := JoinStart(start, lines);
    FirstLine(start, rest);
    TrimIsTrimmed(start);
    var ls := [start] + lines;
    LinesOfJoin(ls);
    assert ls[1..] == lines;
    UnfoldFolds(fs, [], None);
    assert Close([], None) + UnfoldedAll(fs) == UnfoldedAll(fs);
  }

  // ------------------------------------------------------------------
  // Bare line feeds
  // ------------------------------------------------------------------

  /** The text of a message whose lines end in line feeds alone. */
  function LfText(m: Message): string { Join([m.start] + m.headers, "\n") + ("\n\n" + m.body) }

  lemma {:induction false} LfLines(ls: seq<string>)
    requires |ls| >= 1 && forall k :: 0 <= k < |ls| ==> '\n' !in ls[k] && (ls[k] != "" ==> ls[k][|ls[k]| - 1] != '\r')
    requires forall k :: 1 <= k < |ls| ==> ls[k] != ""
    ensures AfterFirst(Lines(Join(ls, "\n"))) == ls[1..]
    ensures ls[0] != "" ==> Lines(Join(ls, "\n")) == ls
  {
    if |ls| == 1 {
      FindChar(ls[0], '\n');
      assert ls == [ls[0]];
    } else {
      LfLines(ls[1..]);
      var l, rest := ls[0], Join(ls[1..], "\n");
      FindChar(l, '\n');
      FindAppend(l, "\n", rest);
      var s := l + "\n" + rest;
      assert s[..|l|] == l && s[|l| + 1..] == rest;
      assert ls == [l] + ls[1..];
    }
  }

  lemma {:induction false} LfStart(start: string, headers: seq<string>) returns (rest: string)
    ensures Join([start] + headers, "\n") == start + rest && (rest == "" || rest[0] == '\n')
  {
    if headers == [] {
      assert [start] + headers == [start];
      rest := "";
    } else {
      assert ([start] + headers)[1..] == headers;
      rest := "\n" + Join(headers, "\n");
      assert start + "\n" + Join(headers, "\n") == start + rest;
    }
  }

  lemma {:induction false} FirstLfLine(start: string, rest: string)
    requires '\r' !in start && '\n' !in start && (rest == "" || rest[0] == '\n')
    ensures UntilLineEnd(start + rest) == start
  {
    if start == "" {
      assert start + rest == rest;
    } else {
      assert (start + rest)[1..] == start[1..] + rest;
      FirstLfLine(start[1..], rest);
    }
  }

  predicate LfLfAt(s: string, i: int) { 0 <= i && i + 2 <= |s| && s[i] == '\n' && s[i + 1] == '\n' }

  lemma OccursLfLf(s: string, i: int)
    ensures OccursAt(s, "\n\n", i) <==> LfLfAt(s, i)
  {
    if 0 <= i && i + 2 <= |s| {
      var t := s[i..i + 2];
      assert t[0] == s[i] && t[1] == s[i + 1];
    }
  }

  /** Joined lines of which none but the first is empty hold no two line feeds in a row, and
      end in none. */
  lemma {:induction false} NoLfLf(ls: seq<string>)
    requires |ls| >= 1 && (forall k :: 0 <= k < |ls| ==> '\n' !in ls[k]) && forall k :: 1 <= k < |ls| ==> ls[k] != ""
    ensures forall i :: !LfLfAt(Join(ls, "\n"), i)
    ensures ls[0] != "" ==> Join(ls, "\n") != "" && Join(ls, "\n")[0] != '\n'
    ensures Join(ls, "\n") != "" ==> Join(ls, "\n")[|Join(ls, "\n")| - 1] != '\n'
  {
    if |ls| > 1 {
      NoLfLf(ls[1..]);
      var l, rest := ls[0], Join(ls[1..], "\n");
      var s := l + "\n" + rest;
      assert Join(ls, "\n") == s && rest != "" && rest[0] != '\n';
      forall i ensures !LfLfAt(s, i) {
        if 0 <= i < |l| {
          assert l[i] in l;
        } else if i > |l| {
          assert !LfLfAt(rest, i - |l| - 1);
        }
      }
      assert s[|s| - 1] == rest[|rest| - 1];
    }
  }

  lemma {:induction false} LfHead(head: string, body: string)
    requires (forall i :: !LfLfAt(head, i)) && (head != "" ==> head[|head| - 1] != '\n')
    ensures Find(head + ("\n\n" + body), "\n\n") == Some(|head|)
  {
    hide Find;
    var s := head + ("\n\n" + body);
    OccursLfLf(s, |head|);
    forall j | 0 <= j < |head| ensures !OccursAt(s, "\n\n", j) {
      OccursLfLf(s, j);
      assert !LfLfAt(head, j);
      assert s[j] == head[j];
    }
    FindIs(s, "\n\n", |head|);
  }

  lemma LfCut(m: Message)
    requires WellFormed(m) && Find(LfText(m), BLANK_LINE).None?
    ensures HeadBody(LfText(m)) == (Join([m.start] + m.headers, "\n"), m.body)
  {
    hide Find, Join;
    var ls := [m.start] + m.headers;
    var head := Join(ls, "\n");
    NoLfLf(ls);
    LfHead(head, m.body);
    assert LfText(m)[..|head|] == head && LfText(m)[|head| + 2..] == m.body;
  }

  lemma LfHeaders(m: Message)
    requires WellFormed(m) && forall k :: 0 <= k < |m.headers| ==> m.headers[k][|m.headers[k]| - 1] != '\r'
    ensures Unfold(AfterFirst(Lines(Join([m.start] + m.headers, "\n"))), [], None) == m.headers
  {
    hide Find, Join, Unfold, Lines, AfterFirst;
    var ls := [m.start] + m.headers;
    LfLines(ls);
    assert ls[1..] == m.headers;
    UnfoldPlain(m.headers, [], None);
    assert Close([], None) + m.headers == m.headers;
  }

  /** A message whose lines end in line feeds alone is read like one with full line ends, as
      long as no full blank line comes first. */
  lemma {:induction false} LineFeedsRead(m: Message)
    requires WellFormed(m) && Find(LfText(m), BLANK_LINE).None?
    requires forall k :: 0 <= k < |m.headers| ==> m.headers[k][|m.headers[k]| - 1] != '\r'
    ensures Parse(LfText(m)) == m
  {
    hide Find, Trim, Join, Unfold, Lines, AfterFirst, UntilLineEnd, Trimmed, HeadBody, LfText;
    LfCut(m);
    LfHeaders(m);
    var rest := LfStart(m.start, m.headers);
    FirstLfLine(m.start, rest);
    TrimIsTrimmed(m.start);
  }
}
