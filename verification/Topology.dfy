/** Raw SIP message rewriting (`topology.rs`): the line-based parser and printer, the
    header edits, and what hiding leaves of a request that goes out. */
module Topology {
  import opened Prelude
  import opened Text
  import SipMessage

  datatype Message = Message(start: string, headers: seq<string>, body: string)

  // ------------------------------------------------------------------
  // Parsing
  // ------------------------------------------------------------------

  predicate Blank(c: char) { c == ' ' || c == '\t' }

  function StripCr(s: string): string { if s != "" && s[|s| - 1] == '\r' then s[..|s| - 1] else s }

  /** `str::lines`: cut after every line feed, one carriage return before it dropped. */
  function Lines(s: string): seq<string>
    decreases |s|
  {
    if s == "" then []
    else match Find(s, "\n")
      case None => [s]
      case Some(i) => [StripCr(s[..i])] + Lines(s[i + 1..])
  }

  function UntilLineEnd(s: string): (r: string)
    ensures '\r' !in r && '\n' !in r
  {
    if s == "" || s[0] == '\r' || s[0] == '\n' then "" else [s[0]] + UntilLineEnd(s[1..])
  }

  /** The head of the message and its body: at the first blank line, of either kind. */
  function HeadBody(raw: string): (string, string) {
    match Find(raw, BLANK_LINE)
    case Some(pos) => (raw[..pos], raw[pos + 4..])
    case None =>
      match Find(raw, "\n\n")
      case Some(pos) => (raw[..pos], raw[pos + 2..])
      case None => (raw, "")
  }

  predicate Folded(line: string) { line != "" && Blank(line[0]) }

  function Close(done: seq<string>, open: Option<string>): seq<string> {
    if open.Some? then done + [open.value] else done
  }

  /** The header lines: continuation lines are appended to the header they follow. */
  function Unfold(lines: seq<string>, done: seq<string>, open: Option<string>): seq<string>
    decreases |lines|
  {
    if lines == [] then Close(done, open)
    else if Folded(lines[0]) then
      Unfold(lines[1..], done, if open.Some? then Some(open.value + " " + Trim(lines[0])) else None)
    else if lines[0] == "" then Unfold(lines[1..], Close(done, open), None)
    else Unfold(lines[1..], Close(done, open), Some(lines[0]))
  }

  function AfterFirst(lines: seq<string>): seq<string> { if lines == [] then [] else lines[1..] }

  function Parse(raw: string): Message {
    var (head, body) := HeadBody(raw);
    Message(Trim(UntilLineEnd(head)), Unfold(AfterFirst(Lines(head)), [], None), body)
  }

  function Render(m: Message): string { SipMessage.Render(m.start, m.headers, m.body) }

  // ------------------------------------------------------------------
  // The round trip
  // ------------------------------------------------------------------

  predicate HeaderLine(h: string) { h != "" && !Blank(h[0]) && '\n' !in h }

  /** A message the parser can produce. */
  predicate WellFormed(m: Message) {
    && Trimmed(m.start) && '\r' !in m.start && '\n' !in m.start
    && forall k :: 0 <= k < |m.headers| ==> HeaderLine(m.headers[k])
  }

  lemma NoLfNoCrlf(l: string)
    requires '\n' !in l
    ensures Find(l, CRLF).None?
  {
    SipMessage.FindCrlf(l);
    forall j | 0 <= j <= |l| ensures !SipMessage.CrlfAt(l, j) {
      if j + 2 <= |l| { assert l[j + 1] in l; }
    }
  }

  lemma LinesStep(l: string, rest: string)
    requires '\n' !in l
    ensures Lines(l + CRLF + rest) == [l] + Lines(rest)
  {
    var s, a := l + CRLF + rest, l + "\r";
    FindChar(a, '\n');
    FindAppend(a, "\n", rest);
    assert s == a + "\n" + rest;
    assert s[..|a|] == a && s[|a| + 1..] == rest;
    assert StripCr(a) == l;
  }

  /** The lines of a message head are the lines it was joined from. */
  lemma {:induction false} LinesOfJoin(ls: seq<string>)
    requires |ls| >= 1 && forall k :: 0 <= k < |ls| ==> '\n' !in ls[k]
    requires forall k :: 1 <= k < |ls| ==> ls[k] != ""
    ensures AfterFirst(Lines(Join(ls, CRLF))) == ls[1..]
    ensures ls[0] != "" ==> Lines(Join(ls, CRLF)) == ls
  {
    if |ls| == 1 {
      FindChar(ls[0], '\n');
      assert ls == [ls[0]];
    } else {
      LinesOfJoin(ls[1..]);
      LinesStep(ls[0], Join(ls[1..], CRLF));
      assert ls == [ls[0]] + ls[1..];
    }
  }

  lemma {:induction false} UnfoldPlain(lines: seq<string>, done: seq<string>, open: Option<string>)
    requires forall k :: 0 <= k < |lines| ==> HeaderLine(lines[k])
    ensures Unfold(lines, done, open) == Close(done, open) + lines
    decreases |lines|
  {
    if lines != [] {
      UnfoldPlain(lines[1..], Close(done, open), Some(lines[0]));
      assert lines == [lines[0]] + lines[1..];
      assert Close(done, open) + [lines[0]] + lines[1..] == Close(done, open) + ([lines[0]] + lines[1..]);
    }
  }

  lemma {:induction false} FirstLine(start: string, rest: string)
    requires '\r' !in start && '\n' !in start && (rest == "" || rest[0] == '\r')
    ensures UntilLineEnd(start + rest) == start
  {
    if start == "" {
      assert start + rest == rest;
    } else {
      assert (start + rest)[1..] == start[1..] + rest;
      FirstLine(start[1..], rest);
    }
  }

  lemma JoinStart(start: string, headers: seq<string>) returns (rest: string)
    ensures Join([start] + headers, CRLF) == start + rest && (rest == "" || rest[0] == '\r')
  {
    if headers == [] {
      assert [start] + headers == [start];
      rest := "";
    } else {
      assert ([start] + headers)[1..] == headers;
      rest := CRLF + Join(headers, CRLF);
      assert start + CRLF + Join(headers, CRLF) == start + rest;
    }
  }

  /** Where the printed message is cut: its head is the lines joined, its body the body. */
  lemma {:induction false} RenderCut(m: Message)
    requires WellFormed(m)
    ensures HeadBody(Render(m)) == (Join([m.start] + m.headers, CRLF), m.body)
  {
    hide HeadBody, Join, SipMessage.Render, Find;
    NoLfNoCrlf(m.start);
    forall k | 0 <= k < |m.headers| ensures SipMessage.IsLine(m.headers[k]) { NoLfNoCrlf(m.headers[k]); }
    SipMessage.RenderBody(m.start, m.headers, m.body);
    HeadBodyAt(Join([m.start] + m.headers, CRLF), m.body);
  }

  lemma {:induction false} StartReads(m: Message)
    requires WellFormed(m)
    ensures Trim(UntilLineEnd(Join([m.start] + m.headers, CRLF))) == m.start
  {
    hide Join, Trim, UntilLineEnd;
    var rest := JoinStart(m.start, m.headers);
    FirstLine(m.start, rest);
    TrimIsTrimmed(m.start);
  }

  lemma {:induction false} HeadersRead(m: Message)
    requires WellFormed(m)
    ensures Unfold(AfterFirst(Lines(Join([m.start] + m.headers, CRLF))), [], None) == m.headers
  {
    hide Unfold, Lines, Join, AfterFirst;
    var ls := [m.start] + m.headers;
    LinesOfJoin(ls);
    assert ls[1..] == m.headers;
    UnfoldPlain(m.headers, [], None);
    assert Close([], None) + m.headers == m.headers;
  }

  lemma {:induction false} RoundTrip(m: Message)
    requires WellFormed(m)
    ensures Parse(Render(m)) == m
  {
    hide Unfold, Lines, Join, Render, WellFormed, HeadBody, Trim, UntilLineEnd, AfterFirst;
    RenderCut(m);
    StartReads(m);
    HeadersRead(m);
  }

  lemma HeadBodyAt(head: string, body: string)
    requires Find(head + (CRLF + CRLF + body), BLANK_LINE) == Some(|head|)
    ensures HeadBody(head + (CRLF + CRLF + body)) == (head, body)
  {
    var raw := head + (CRLF + CRLF + body);
    assert raw[..|head|] == head && raw[|head| + 4..] == body;
  }

  lemma {:induction false} LinesHaveNoLf(s: string)
    ensures forall k :: 0 <= k < |Lines(s)| ==> '\n' !in Lines(s)[k]
    decreases |s|
  {
    if s != "" {
      FindChar(s, '\n');
      match Find(s, "\n")
      case None =>
      case Some(i) =>
        SliceClean(s, "\n", 0, i);
        FindChar(s[..i], '\n');
        LinesHaveNoLf(s[i + 1..]);
    }
  }

  lemma TrimSubset(s: string, c: char)
    requires c !in s
    ensures c !in Trim(s)
  {
    hide TrimStart, TrimEnd;
    TrimStartFacts(s);
    TrimEndFacts(TrimStart(s));
    assert forall j :: 0 <= j < |TrimStart(s)| ==> TrimStart(s)[j] == s[|s| - |TrimStart(s)| + j];
  }

  predicate AllHeaderLines(hs: seq<string>) { forall k :: 0 <= k < |hs| ==> HeaderLine(hs[k]) }

  lemma {:induction false} UnfoldWellFormed(lines: seq<string>, done: seq<string>, open: Option<string>)
    requires forall k :: 0 <= k < |lines| ==> '\n' !in lines[k]
    requires AllHeaderLines(done) && (open.Some? ==> HeaderLine(open.value))
    ensures AllHeaderLines(Unfold(lines, done, open))
    decreases |lines|
  {
    if lines != [] {
      if Folded(lines[0]) {
        TrimSubset(lines[0], '\n');
        UnfoldWellFormed(lines[1..], done, if open.Some? then Some(open.value + " " + Trim(lines[0])) else None);
      } else if lines[0] == "" {
        UnfoldWellFormed(lines[1..], Close(done, open), None);
      } else {
        UnfoldWellFormed(lines[1..], Close(done, open), Some(lines[0]));
      }
    }
  }

  /** Whatever text comes in, what the parser makes of it is well formed. */
  lemma ParsedIsWellFormed(raw: string)
    ensures WellFormed(Parse(raw))
  {
    hide Unfold, Lines, Trim;
    var head := HeadBody(raw).0;
    TrimIsTrimmed(UntilLineEnd(head));
    TrimSubset(UntilLineEnd(head), '\r');
    TrimSubset(UntilLineEnd(head), '\n');
    LinesHaveNoLf(head);
    UnfoldWellFormed(AfterFirst(Lines(head)), [], None);
  }

  /** Exactly the well-formed messages survive printing and parsing, any body included;
      so printing and parsing again changes nothing more, whatever text was received. */
  lemma RoundTripIff(m: Message, raw: string)
    ensures Parse(Render(m)) == m <==> WellFormed(m)
    ensures Parse(Render(Parse(raw))) == Parse(raw)
  {
    hide Parse, Render, WellFormed;
    if WellFormed(m) { RoundTrip(m); } else { ParsedIsWellFormed(Render(m)); }
    ParsedIsWellFormed(raw);
    RoundTrip(Parse(raw));
  }
}
