/** The shape every SIP message text has: a start line, header lines, an empty
    line and a body, all separated by CRLF. */
module SipMessage {
  import opened Prelude
  import opened Text

  /** The header lines, each with its line end. */
  function HeaderText(headers: seq<string>): string {
    if headers == [] then "" else headers[0] + CRLF + HeaderText(headers[1..])
  }

  function Render(start: string, headers: seq<string>, body: string): string {
    start + CRLF + HeaderText(headers) + CRLF + body
  }

  /** A line of its own: not empty and without a line end inside. */
  predicate IsLine(l: string) { l != "" && Find(l, CRLF).None? }

  predicate AreLines(headers: seq<string>) {
    forall k :: 0 <= k < |headers| ==> IsLine(headers[k])
  }

  lemma RenderUnfold(start: string, headers: seq<string>, body: string)
    ensures headers == [] ==> Render(start, headers, body) == start + CRLF + ("" + CRLF + body)
    ensures headers != [] ==> Render(start, headers, body) == start + CRLF + Render(headers[0], headers[1..], body)
  {
    if headers != [] {
      var h, t := headers[0], HeaderText(headers[1..]);
      assert start + CRLF + (h + CRLF + t) + CRLF + body == start + CRLF + (h + CRLF + t + CRLF + body);
    }
  }

  lemma SplitLine(l: string)
    requires Find(l, CRLF).None?
    ensures Split(l, CRLF) == [l]
  {
  }

  lemma PutFirst(start: string, headers: seq<string>, tail: seq<string>)
    ensures headers == [] ==> [start] + ([""] + tail) == [start] + headers + [""] + tail
    ensures headers != [] ==> [start] + ([headers[0]] + headers[1..] + [""] + tail) == [start] + headers + [""] + tail
  {
    if headers != [] {
      assert headers == [headers[0]] + headers[1..];
    }
  }

  /** Splitting a message into lines gives back the start line, every header
      line, the empty line, then the lines of the body. */
  lemma {:induction false} RenderSplit(start: string, headers: seq<string>, body: string)
    requires Find(start, CRLF).None? && AreLines(headers)
    ensures Split(Render(start, headers, body), CRLF) == [start] + headers + [""] + Split(body, CRLF)
    decreases |headers|
  {
    hide Split, Find, Render;
    CrlfUnbordered();
    RenderUnfold(start, headers, body);
    SplitLine(start);
    PutFirst(start, headers, Split(body, CRLF));
    if headers == [] {
      NoCrlfInEmpty();
      SplitLine("");
      SplitAppend(start, CRLF, "" + CRLF + body);
      SplitAppend("", CRLF, body);
    } else {
      SplitAppend(start, CRLF, Render(headers[0], headers[1..], body));
      RenderSplit(headers[0], headers[1..], body);
    }
  }

  lemma NoCrlfInEmpty() ensures Find("", CRLF).None? {}

  // Positions of line ends and blank lines, character by character.
  predicate CrlfAt(s: string, i: int) { 0 <= i && i + 2 <= |s| && s[i] == '\r' && s[i + 1] == '\n' }

  predicate BlankAt(s: string, i: int) { CrlfAt(s, i) && CrlfAt(s, i + 2) }

  lemma OccursCrlf(s: string, i: int)
    ensures OccursAt(s, CRLF, i) <==> CrlfAt(s, i)
  {
    if 0 <= i && i + 2 <= |s| {
      var t := s[i..i + 2];
      assert t[0] == s[i] && t[1] == s[i + 1];
    }
  }

  lemma OccursBlank(s: string, i: int)
    ensures OccursAt(s, BLANK_LINE, i) <==> BlankAt(s, i)
  {
    if 0 <= i && i + 4 <= |s| {
      var t := s[i..i + 4];
      assert t[0] == s[i] && t[1] == s[i + 1] && t[2] == s[i + 2] && t[3] == s[i + 3];
    }
  }

  lemma {:induction false} FindCrlf(s: string)
    ensures Find(s, CRLF).None? <==> forall j :: 0 <= j <= |s| ==> !CrlfAt(s, j)
    ensures Find(s, CRLF).Some? ==> CrlfAt(s, Find(s, CRLF).value)
  {
    forall j ensures OccursAt(s, CRLF, j) <==> CrlfAt(s, j) { OccursCrlf(s, j); }
    FindNothing(s, CRLF);
  }

  lemma {:induction false} FindBlank(s: string, i: nat)
    ensures Find(s, BLANK_LINE) == Some(i) <==> BlankAt(s, i) && forall j :: 0 <= j < i ==> !BlankAt(s, j)
  {
    forall j ensures OccursAt(s, BLANK_LINE, j) <==> BlankAt(s, j) { OccursBlank(s, j); }
    if BlankAt(s, i) && forall j :: 0 <= j < i ==> !BlankAt(s, j) {
      FindIs(s, BLANK_LINE, i);
    } else if Find(s, BLANK_LINE) == Some(i) {
      var j :| 0 <= j < i && BlankAt(s, j);
      FindFirst(s, BLANK_LINE, j);
    }
  }

  /** `s` is `l`, a line end and `x`, character by character. */
  ghost predicate Laid(s: string, l: string, x: string) {
    && |s| == |l| + 2 + |x|
    && (forall k :: 0 <= k < |l| ==> s[k] == l[k])
    && s[|l|] == '\r' && s[|l| + 1] == '\n'
    && (forall k :: 0 <= k < |x| ==> s[|l| + 2 + k] == x[k])
  }

  lemma ConcatIsLaid(l: string, x: string)
    ensures Laid(l + CRLF + x, l, x)
  {
  }

  lemma {:induction false} BlankInLaid(s: string, l: string, x: string, i: nat)
    requires Laid(s, l, x) && Find(l, CRLF).None? && !CrlfAt(x, 0) && Find(x, BLANK_LINE) == Some(i)
    ensures Find(s, BLANK_LINE) == Some(|l| + 2 + i)
  {
    hide Find;
    FindCrlf(l);
    FindBlank(x, i);
    forall j | 0 <= j < |l| + 2 + i ensures !BlankAt(s, j) {
      if j < |l| {
        assert !CrlfAt(l, j);
      } else if j == |l| {
        assert !CrlfAt(x, 0);
      } else if j == |l| + 1 {
        assert s[j] == '\n';
      } else {
        assert !BlankAt(x, j - |l| - 2);
      }
    }
    FindBlank(s, |l| + 2 + i);
  }

  /** The blank line is not found inside a line that something else follows. */
  lemma {:induction false} BlankAfterLine(l: string, x: string, i: nat)
    requires Find(l, CRLF).None? && !CrlfAt(x, 0) && Find(x, BLANK_LINE) == Some(i)
    ensures Find(l + CRLF + x, BLANK_LINE) == Some(|l| + 2 + i)
  {
    hide Find, Laid, CrlfAt;
    ConcatIsLaid(l, x);
    BlankInLaid(l + CRLF + x, l, x, i);
  }

  lemma {:induction false} BlankAtOnce(l: string, body: string)
    requires Find(l, CRLF).None?
    ensures Find(l + CRLF + ("" + CRLF + body), BLANK_LINE) == Some(|l|)
  {
    var s := l + CRLF + ("" + CRLF + body);
    FindCrlf(l);
    forall j | 0 <= j < |l| ensures !BlankAt(s, j) {
      assert !CrlfAt(l, j);
    }
    FindBlank(s, |l|);
  }

  lemma {:induction false} LineStart(l: string, rest: string)
    requires IsLine(l)
    ensures !CrlfAt(l + CRLF + rest, 0)
  {
    FindCrlf(l);
    assert !CrlfAt(l, 0);
  }

  lemma {:induction false} MessageStart(l: string, headers: seq<string>, body: string)
    requires IsLine(l)
    ensures !CrlfAt(Render(l, headers, body), 0)
  {
    RenderUnfold(l, headers, body);
    if headers == [] { LineStart(l, "" + CRLF + body); } else { LineStart(l, Render(headers[0], headers[1..], body)); }
  }

  lemma JoinCons(start: string, headers: seq<string>)
    ensures headers == [] ==> Join([start] + headers, CRLF) == start
    ensures headers != [] ==>
              Join([start] + headers, CRLF) == start + CRLF + Join([headers[0]] + headers[1..], CRLF)
    ensures headers != [] ==> |Join([start] + headers, CRLF)| == |start| + 2 + |Join([headers[0]] + headers[1..], CRLF)|
  {
    if headers == [] {
      assert [start] + headers == [start];
    } else {
      assert ([start] + headers)[1..] == [headers[0]] + headers[1..];
    }
  }

  /** The first blank line of a message is the one before its body. */
  lemma {:induction false} RenderBody(start: string, headers: seq<string>, body: string)
    requires Find(start, CRLF).None? && AreLines(headers)
    ensures var head := Join([start] + headers, CRLF);
            Find(Render(start, headers, body), BLANK_LINE) == Some(|head|)
            && Render(start, headers, body) == head + (CRLF + CRLF + body)
    decreases |headers|
  {
    hide Find, Render, Join, CrlfAt;
    RenderUnfold(start, headers, body);
    JoinCons(start, headers);
    if headers == [] {
      BlankAtOnce(start, body);
      NoHeaders(start, body);
    } else {
      var h, t := headers[0], headers[1..];
      RenderBody(h, t, body);
      MessageStart(h, t, body);
      var tailHead := Join([h] + t, CRLF);
      BlankAfterLine(start, Render(h, t, body), |tailHead|);
      Regroup4(start, tailHead, CRLF + CRLF + body);
    }
  }

  lemma NoHeaders(start: string, body: string)
    ensures start + CRLF + ("" + CRLF + body) == start + (CRLF + CRLF + body)
  {
  }

  lemma Regroup4(a: string, b: string, c: string)
    ensures a + CRLF + (b + c) == (a + CRLF + b) + c
  {
  }

  lemma CutAt(s: string, i: nat)
    requires CrlfAt(s, i)
    ensures s == s[..i] + CRLF + s[i + 2..]
  {
  }

  lemma ConsLines(lines: seq<string>)
    requires |lines| >= 1 && IsLine(lines[0]) && AreLines(lines[1..])
    ensures AreLines(lines)
  {
    assert forall k :: 1 <= k < |lines| ==> lines[k] == lines[1..][k - 1];
  }

  /** Every text with a blank line is the rendering of its own lines and body. */
  lemma {:induction false} Structure(head: string, body: string)
    requires Find(head + (CRLF + CRLF + body), BLANK_LINE) == Some(|head|)
    ensures var lines := Split(head, CRLF);
            Find(lines[0], CRLF).None? && AreLines(lines[1..])
            && head + (CRLF + CRLF + body) == Render(lines[0], lines[1..], body)
    decreases |head|
  {
    hide Find, Split, Render, CrlfAt;
    match Find(head, CRLF)
    case None =>
      RenderUnfold(head, [], body);
      NoHeaders(head, body);
      SplitLine(head);
      assert [head][1..] == [];
    case Some(i) =>
      var l, rest := head[..i], head[i + 2..];
      FindCrlf(head);
      CutAt(head, i);
      SliceClean(head, CRLF, 0, i);
      SplitStep(head, CRLF, l, rest);
      AfterCut(l, rest, body);
      Structure(rest, body);
      var lines := Split(rest, CRLF);
      FirstLineNotEmpty(rest);
      ConsLines(lines);
      RenderCons(l, rest, lines, body);
      assert Split(head, CRLF)[1..] == lines;
  }

  lemma AfterCut(l: string, rest: string, body: string)
    requires Find((l + CRLF + rest) + (CRLF + CRLF + body), BLANK_LINE) == Some(|l + CRLF + rest|)
    ensures Find(rest + (CRLF + CRLF + body), BLANK_LINE) == Some(|rest|) && rest != "" && !CrlfAt(rest, 0)
  {
    hide Find;
    TailBlank(l, rest, CRLF + CRLF + body);
  }

  lemma {:induction false} RenderCons(l: string, rest: string, lines: seq<string>, body: string)
    requires |lines| >= 1 && rest + (CRLF + CRLF + body) == Render(lines[0], lines[1..], body)
    ensures (l + CRLF + rest) + (CRLF + CRLF + body) == Render(l, lines, body)
  {
    RenderUnfold(l, lines, body);
    Regroup4(l, rest, CRLF + CRLF + body);
  }

  /** Dropping the first line of the head leaves the same blank line first. */
  lemma {:induction false} TailBlank(l: string, rest: string, tail: string)
    requires CrlfAt(tail, 0) && CrlfAt(tail, 2)
    requires Find(l + CRLF + rest + tail, BLANK_LINE) == Some(|l| + 2 + |rest|)
    ensures Find(rest + tail, BLANK_LINE) == Some(|rest|)
    ensures rest != "" && !CrlfAt(rest, 0)
  {
    var raw, x := l + CRLF + rest + tail, rest + tail;
    FindBlank(raw, |l| + 2 + |rest|);
    assert forall k :: 0 <= k < |x| ==> raw[|l| + 2 + k] == x[k];
    forall j | 0 <= j < |rest| ensures !BlankAt(x, j) {
      assert !BlankAt(raw, |l| + 2 + j);
    }
    FindBlank(x, |rest|);
    assert CrlfAt(raw, |l|);
    assert !BlankAt(raw, |l|);
    assert !CrlfAt(raw, |l| + 2);
    assert !CrlfAt(x, 0);
  }

  lemma {:induction false} FirstLineNotEmpty(s: string)
    requires s != "" && !CrlfAt(s, 0)
    ensures Split(s, CRLF)[0] != ""
  {
    FindCrlf(s);
  }
}
