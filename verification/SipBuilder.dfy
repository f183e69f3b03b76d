/** `sip_builder.rs`: reading the identity of a raw INVITE and building the
    CANCEL, the ACK for a non-2xx and the renewed INVITE from it. */
module SipBuilder {
  import opened Prelude
  import opened Text
  import opened SipMessage

  // ------------------------------------------------------------------
  // Header lines
  // ------------------------------------------------------------------

  /** The header fields the builder tells apart. */
  datatype Field = Via | From | To | CallId | CSeq | Route | Other

  function FieldNamed(name: string): Field {
    if name == "via" || name == "v" then Via
    else if name == "from" || name == "f" then From
    else if name == "to" || name == "t" then To
    else if name == "call-id" || name == "i" then CallId
    else if name == "cseq" then CSeq
    else if name == "route" then Route
    else Other
  }

  function FieldOf(line: string): Field {
    match SplitOnce(line, ":")
    case None => Other
    case Some(parts) => FieldNamed(Lower(Trim(parts.0)))
  }

  /** What follows the first colon. */
  function AfterColon(line: string): string {
    match SplitOnce(line, ":")
    case None => ""
    case Some(parts) => parts.1
  }

  function ValueOf(line: string): string { Trim(AfterColon(line)) }

  /** The name before the first colon, lower-cased. */
  function NameOfLine(line: string): Option<string> {
    match SplitOnce(line, ":")
    case None => None
    case Some(parts) => Some(Lower(Trim(parts.0)))
  }

  /** The values of every line with this name, in order: what a peer reads under it. */
  function NamedValues(block: seq<string>, low: string): seq<string> {
    if block == [] then []
    else NamedValues(block[..|block| - 1], low)
         + (if NameOfLine(block[|block| - 1]) == Some(low) then [ValueOf(block[|block| - 1])] else [])
  }

  /** `{name}: {value}`. */
  function Header(name: string, value: string): string { name + ":" + (" " + value) }

  lemma {:induction false} HeaderParts(name: string, value: string)
    requires ':' !in name && Trimmed(name)
    ensures AfterColon(Header(name, value)) == " " + value
    ensures ValueOf(Header(name, value)) == Trim(value)
    ensures FieldOf(Header(name, value)) == FieldNamed(Lower(name))
    ensures NameOfLine(Header(name, value)) == Some(Lower(name))
  {
    hide FieldNamed, Lower, Trim, SplitOnce, Trimmed;
    FindChar(name, ':');
    SplitOnceAt(name, ":", " " + value);
    TrimIsTrimmed(name);
    TrimPadded(value);
  }

  // ------------------------------------------------------------------
  // The header block as a whole
  // ------------------------------------------------------------------

  /** Where the header block that starts at line `i` ends: at the first empty
      line, else at the end of the text. */
  function BlockEnd(lines: seq<string>, i: nat): (e: nat)
    requires i <= |lines|
    ensures i <= e <= |lines|
    ensures forall k :: i <= k < e ==> lines[k] != ""
    ensures e < |lines| ==> lines[e] == ""
    decreases |lines| - i
  {
    if i == |lines| || lines[i] == "" then i else BlockEnd(lines, i + 1)
  }

  function HeaderBlock(lines: seq<string>): seq<string>
    requires |lines| >= 1
  {
    lines[1..BlockEnd(lines, 1)]
  }

  /** The values of a header in a text. */
  function HeaderValues(raw: string, low: string): seq<string> { NamedValues(HeaderBlock(Split(raw, CRLF)), low) }

  /** The first line of a field. */
  function First(block: seq<string>, f: Field): (r: Option<string>)
    ensures r.Some? ==> r.value in block && FieldOf(r.value) == f
  {
    if block == [] then None
    else
      var before := First(block[..|block| - 1], f);
      if before.Some? then before
      else if FieldOf(block[|block| - 1]) == f then Some(block[|block| - 1]) else None
  }

  /** The last line of a field. */
  function Last(block: seq<string>, f: Field): (r: Option<string>)
    ensures r.Some? ==> r.value in block && FieldOf(r.value) == f
  {
    if block == [] then None
    else if FieldOf(block[|block| - 1]) == f then Some(block[|block| - 1])
    else Last(block[..|block| - 1], f)
  }

  /** The values of every line of a field, in order. */
  function All(block: seq<string>, f: Field): seq<string> {
    if block == [] then []
    else All(block[..|block| - 1], f)
         + (if FieldOf(block[|block| - 1]) == f then [ValueOf(block[|block| - 1])] else [])
  }

  lemma {:induction false} FirstIs(block: seq<string>, f: Field, i: nat)
    requires i < |block| && FieldOf(block[i]) == f
    requires forall j :: 0 <= j < i ==> FieldOf(block[j]) != f
    ensures First(block, f) == Some(block[i])
  {
    hide FieldOf, ValueOf, CseqNumber, Split, RequestUri;
    var init := block[..|block| - 1];
    if i < |init| {
      FirstIs(init, f, i);
    }
  }

  lemma {:induction false} LastIs(block: seq<string>, f: Field, i: nat)
    requires i < |block| && FieldOf(block[i]) == f
    requires forall j :: i < j < |block| ==> FieldOf(block[j]) != f
    ensures Last(block, f) == Some(block[i])
  {
    hide FieldOf, ValueOf, CseqNumber, Split, RequestUri;
    if i < |block| - 1 {
      LastIs(block[..|block| - 1], f, i);
    }
  }

  lemma {:induction false} AllNone(block: seq<string>, f: Field)
    requires forall j :: 0 <= j < |block| ==> FieldOf(block[j]) != f
    ensures All(block, f) == []
  {
    hide FieldOf, ValueOf, CseqNumber, Split, RequestUri;
    if block != [] { AllNone(block[..|block| - 1], f); }
  }

  lemma {:induction false} AllConcat(a: seq<string>, b: seq<string>, f: Field)
    ensures All(a + b, f) == All(a, f) + All(b, f)
  {
    hide FieldOf, ValueOf, CseqNumber, Split, RequestUri;
    if b == [] {
      assert a + b == a;
    } else {
      assert (a + b)[..|a + b| - 1] == a + b[..|b| - 1];
      AllConcat(a, b[..|b| - 1], f);
    }
  }

  // ------------------------------------------------------------------
  // parse_invite_identity
  // ------------------------------------------------------------------

  datatype Identity = Identity(requestUri: string, topVia: string, from: string, to: string,
                               callId: string, cseq: nat, routes: seq<string>)

  /** Second word of a start line whose first word is `verb` (`splitn(3, ' ')`). */
  function RequestUri(start: string, verb: string): Option<string> {
    match SplitOnce(start, " ")
    case None => None
    case Some(p) =>
      if p.0 != verb then None
      else match SplitOnce(p.1, " ")
        case None => Some(p.1)
        case Some(q) => Some(q.0)
  }

  /** The number of a CSeq header value. */
  function CseqNumber(value: string): Option<nat> {
    match NextWord(value)
    case None => None
    case Some(w) => ParseU32(w.0)
  }

  /** Number and method of a CSeq header value, when both are there. */
  function CseqParts(value: string): Option<(nat, string)> {
    match NextWord(value)
    case None => None
    case Some(w) =>
      match NextWord(w.1)
      case None => None
      case Some(m) =>
        match ParseU32(w.0)
        case None => None
        case Some(n) => Some((n, m.0))
  }

  /** The last CSeq line of a text, read whole and word by word: a number and a method,
      with one blank between them and nothing else. */
  ghost predicate CarriesCseq(raw: string, n: nat, verb: string) {
    var line := Last(HeaderBlock(Split(raw, CRLF)), CSeq);
    && line.Some? && ValueOf(line.value) == Print(n) + " " + verb
    && CseqParts(ValueOf(line.value)) == Some((n, verb))
  }

  /** The identity in a request's start line and header block: first Via, last
      From/To/Call-ID/CSeq, every Route. */
  function IdentityOf(verb: string, start: string, block: seq<string>): Option<Identity> {
    var uri := RequestUri(start, verb);
    var via := First(block, Via);
    var from := Last(block, From);
    var to := Last(block, To);
    var callId := Last(block, CallId);
    var cseq := Last(block, CSeq);
    if uri.None? || via.None? || from.None? || to.None? || callId.None? || cseq.None? then None
    else match CseqNumber(ValueOf(cseq.value))
      case None => None
      case Some(n) =>
        Some(Identity(uri.value, ValueOf(via.value), ValueOf(from.value), ValueOf(to.value),
                      ValueOf(callId.value), n, All(block, Route)))
  }

  function ParseIdentity(verb: string, raw: string): Option<Identity> {
    var lines := Split(raw, CRLF);
    IdentityOf(verb, lines[0], HeaderBlock(lines))
  }

  lemma EmptyBlock() ensures forall f :: First([], f) == None && Last([], f) == None && All([], f) == [] {}

  lemma OneMoreLine(block: seq<string>, line: string)
    ensures forall f :: First(block + [line], f)
                        == if First(block, f).None? && FieldOf(line) == f then Some(line) else First(block, f)
    ensures forall f :: Last(block + [line], f) == if FieldOf(line) == f then Some(line) else Last(block, f)
    ensures forall f :: All(block + [line], f) == All(block, f) + (if FieldOf(line) == f then [ValueOf(line)] else [])
  {
    hide FieldOf, ValueOf;
    assert (block + [line])[..|block|] == block;
  }

  /** The line scan of the program: one pass with a mutable slot per field. */
  method ParseInviteIdentity(raw: string) returns (r: Option<Identity>)
    ensures r == ParseIdentity("INVITE", raw)
  {
    hide FieldOf, ValueOf, CseqNumber, Split, RequestUri, First, Last, All;
    EmptyBlock();
    var lines := Split(raw, CRLF);
    var uri := RequestUri(lines[0], "INVITE");
    if uri.None? { return None; }
    var via, from, to, callId, cseq, routes := None, None, None, None, None, [];
    var i := 1;
    while i < |lines| && lines[i] != ""
      invariant 1 <= i <= |lines| && BlockEnd(lines, i) == BlockEnd(lines, 1)
      invariant via == ValueIn(First(lines[1..i], Via))
      invariant from == ValueIn(Last(lines[1..i], From)) && to == ValueIn(Last(lines[1..i], To))
      invariant callId == ValueIn(Last(lines[1..i], CallId))
      invariant cseq == NumberIn(Last(lines[1..i], CSeq))
      invariant routes == All(lines[1..i], Route)
    {
      var line := lines[i];
      assert lines[1..i + 1] == lines[1..i] + [line];
      OneMoreLine(lines[1..i], line);
      match FieldOf(line) {
        case Via => if via.None? { via := Some(ValueOf(line)); }
        case From => from := Some(ValueOf(line));
        case To => to := Some(ValueOf(line));
        case CallId => callId := Some(ValueOf(line));
        case CSeq => cseq := CseqNumber(ValueOf(line));
        case Route => routes := routes + [ValueOf(line)];
        case Other =>
      }
      i := i + 1;
    }
    if via.None? || from.None? || to.None? || callId.None? || cseq.None? { return None; }
    return Some(Identity(uri.value, via.value, from.value, to.value, callId.value, cseq.value, routes));
  }

  function ValueIn(line: Option<string>): Option<string> {
    if line.None? then None else Some(ValueOf(line.value))
  }

  function NumberIn(line: Option<string>): Option<nat> {
    if line.None? then None else CseqNumber(ValueOf(line.value))
  }

  // ------------------------------------------------------------------
  // top_via_branch
  // ------------------------------------------------------------------

  const BRANCH := "branch="

  predicate EndsBranch(c: char) { c == ';' || c == ',' || IsWhite(c) }

  /** The text up to the first `;`, `,` or white space. */
  function BranchToken(s: string): string {
    if s == "" || EndsBranch(s[0]) then "" else [s[0]] + BranchToken(s[1..])
  }

  function BranchOf(value: string): Option<string> {
    match Find(value, BRANCH)
    case None => None
    case Some(pos) =>
      var b := Trim(BranchToken(value[pos + |BRANCH|..]));
      if b == "" then None else Some(b)
  }

  function TopViaBranchOf(block: seq<string>): Option<string> {
    match First(block, Via)
    case None => None
    case Some(line) => BranchOf(AfterColon(line))
  }

  function TopViaBranch(raw: string): Option<string> {
    TopViaBranchOf(HeaderBlock(Split(raw, CRLF)))
  }

  /** The line scan of the program: the first Via decides, an empty line ends it. */
  method FindTopViaBranch(raw: string) returns (r: Option<string>)
    ensures r == TopViaBranch(raw)
  {
    hide FieldOf, AfterColon, BranchOf, Split;
    var lines := Split(raw, CRLF);
    var i := 1;
    while i < |lines|
      invariant 1 <= i <= |lines| && BlockEnd(lines, i) == BlockEnd(lines, 1)
      invariant First(lines[1..i], Via).None?
    {
      if lines[i] == "" { return None; }
      if FieldOf(lines[i]) == Via {
        assert lines[1..BlockEnd(lines, 1)][..i - 1] == lines[1..i];
        FirstInPrefix(lines[1..BlockEnd(lines, 1)], i - 1);
        return BranchOf(AfterColon(lines[i]));
      }
      assert lines[1..i + 1][..i - 1] == lines[1..i] && lines[1..i + 1][i - 1] == lines[i];
      i := i + 1;
    }
    return None;
  }

  lemma {:induction false} FirstInPrefix(block: seq<string>, i: nat)
    requires i < |block| && FieldOf(block[i]) == Via && First(block[..i], Via).None?
    ensures First(block, Via) == Some(block[i])
  {
    hide FieldOf;
    NoneBefore(block[..i]);
    assert forall j :: 0 <= j < i ==> block[..i][j] == block[j];
    FirstIs(block, Via, i);
  }

  lemma {:induction false} NoneBefore(block: seq<string>)
    requires First(block, Via).None?
    ensures forall j :: 0 <= j < |block| ==> FieldOf(block[j]) != Via
  {
    hide FieldOf;
    if block != [] { NoneBefore(block[..|block| - 1]); }
  }

  // ------------------------------------------------------------------
  // Branches and white space around a Via value
  // ------------------------------------------------------------------

  lemma {:induction false} BranchTokenIs(w: string, rest: string)
    requires forall j :: 0 <= j < |w| ==> !EndsBranch(w[j])
    requires rest != "" ==> EndsBranch(rest[0])
    ensures BranchToken(w + rest) == w
  {
    hide IsWhite;
    if w == "" {
      assert w + rest == rest;
    } else {
      assert (w + rest)[1..] == w[1..] + rest;
      BranchTokenIs(w[1..], rest);
    }
  }

  lemma {:induction false} BranchTokenPad(x: string, pad: string)
    requires pad != "" ==> EndsBranch(pad[0])
    ensures BranchToken(x + pad) == BranchToken(x)
  {
    hide IsWhite;
    if x == "" {
      assert x + pad == pad;
    } else {
      assert (x + pad)[1..] == x[1..] + pad;
      BranchTokenPad(x[1..], pad);
    }
  }

  /** A word is found at the same place when white space is added around the text. */
  lemma {:induction false} FindPadded(w1: string, t: string, w2: string, pat: string)
    requires pat != "" && !IsWhite(pat[0]) && !IsWhite(pat[|pat| - 1])
    requires AllWhite(w1) && AllWhite(w2)
    ensures Find(t, pat).None? ==> Find(w1 + t + w2, pat).None?
    ensures Find(t, pat).Some? ==> Find(w1 + t + w2, pat) == Some(|w1| + Find(t, pat).value)
  {
    hide IsWhite, Find, OccursAt;
    var s := w1 + t + w2;
    forall j | 0 <= j <= |s| ensures OccursAt(s, pat, j) <==> OccursAt(t, pat, j - |w1|) {
      OccursPadded(w1, t, w2, pat, j);
    }
    FindShifted(s, t, pat, |w1|);
  }

  lemma OccursInside(s: string, pat: string, j: int)
    requires OccursAt(s, pat, j)
    ensures 0 <= j <= |s|
  {
  }

  /** Texts with the same occurrences, shifted, have the same first one, shifted. */
  lemma {:induction false} FindShifted(s: string, t: string, pat: string, off: nat)
    requires pat != "" && |s| >= off + |t|
    requires forall j :: 0 <= j <= |s| ==> (OccursAt(s, pat, j) <==> OccursAt(t, pat, j - off))
    ensures Find(t, pat).None? ==> Find(s, pat).None?
    ensures Find(t, pat).Some? ==> Find(s, pat) == Some(off + Find(t, pat).value)
  {
    hide Find, OccursAt;
    FindNothing(t, pat);
    FindNothing(s, pat);
    if Find(t, pat).None? {
      forall j | 0 <= j <= |s| ensures !OccursAt(s, pat, j) {
        if OccursAt(t, pat, j - off) { OccursInside(t, pat, j - off); }
      }
    } else {
      var i := Find(t, pat).value;
      OccursInside(t, pat, i);
      assert OccursAt(s, pat, off + i) <==> OccursAt(t, pat, off + i - off);
      forall j | 0 <= j < off + i ensures !OccursAt(s, pat, j) {
        if OccursAt(t, pat, j - off) {
          OccursInside(t, pat, j - off);
          NotBefore(t, pat, j - off);
        }
      }
      FindIs(s, pat, off + i);
    }
  }

  lemma {:induction false} NotBefore(s: string, pat: string, j: nat)
    requires pat != "" && Find(s, pat).Some? && j < Find(s, pat).value
    ensures !OccursAt(s, pat, j)
  {
    if OccursAt(s, pat, j) { FindFirst(s, pat, j); }
  }

  lemma {:induction false} OccursPadded(w1: string, t: string, w2: string, pat: string, j: nat)
    requires pat != "" && !IsWhite(pat[0]) && !IsWhite(pat[|pat| - 1])
    requires AllWhite(w1) && AllWhite(w2)
    ensures OccursAt(w1 + t + w2, pat, j) <==> OccursAt(t, pat, j - |w1|)
  {
    hide IsWhite;
    var s := w1 + t + w2;
    if |w1| <= j && j + |pat| <= |w1| + |t| {
      assert s[j..j + |pat|] == t[j - |w1|..j - |w1| + |pat|];
    } else if j + |pat| <= |s| {
      assert s[j..j + |pat|][0] == s[j] && s[j..j + |pat|][|pat| - 1] == s[j + |pat| - 1];
    }
  }

  lemma BranchEdges()
    ensures |BRANCH| == 7 && !IsWhite(BRANCH[0]) && !IsWhite(BRANCH[|BRANCH| - 1])
  {
  }

  lemma {:induction false} BranchPadded(w1: string, t: string, w2: string)
    requires AllWhite(w1) && AllWhite(w2)
    ensures BranchOf(w1 + t + w2) == BranchOf(t)
  {
    hide IsWhite, Trim, Find, OccursAt, BranchToken;
    BranchEdges();
    FindPadded(w1, t, w2, BRANCH);
    if Find(t, BRANCH).Some? {
      var i := Find(t, BRANCH).value;
      FindFits(t, BRANCH);
      TailSlice(w1, t, w2, i + |BRANCH|);
      BranchTokenPad(t[i + |BRANCH|..], w2);
    }
  }

  lemma FindFits(s: string, pat: string)
    requires pat != "" && Find(s, pat).Some?
    ensures Find(s, pat).value + |pat| <= |s|
  {
    hide Find;
  }

  lemma TailSlice(w1: string, t: string, w2: string, k: nat)
    requires k <= |t|
    ensures (w1 + t + w2)[|w1| + k..] == t[k..] + w2
  {
  }

  /** Trimming a Via value keeps its branch. */
  lemma {:induction false} BranchTrimmed(v: string)
    ensures BranchOf(Trim(v)) == BranchOf(v)
    ensures BranchOf(" " + v) == BranchOf(v)
  {
    hide BranchOf, Trim, IsWhite;
    var w1, w2 := TrimParts(v);
    BranchPadded(w1, Trim(v), w2);
    OneBlank();
    assert " " + v == " " + v + "";
    BranchPadded(" ", v, "");
  }

  // ------------------------------------------------------------------
  // build_cancel, build_ack_for_non_2xx
  // ------------------------------------------------------------------

  /** The name a field is printed under. */
  function PrintedName(f: Field): string {
    match f
    case Via => "Via"
    case From => "From"
    case To => "To"
    case CallId => "Call-ID"
    case CSeq => "CSeq"
    case Route => "Route"
    case Other => "Max-Forwards"
  }

  function Line(f: Field, value: string): string { Header(PrintedName(f), value) }

  function MaxForwardsLine(): string { Header("Max-Forwards", "70") }

  function ContentLengthLine(): string { Header("Content-Length", "0") }

  function RouteLines(routes: seq<string>): seq<string> {
    if routes == [] then [] else RouteLines(routes[..|routes| - 1]) + [Line(Route, routes[|routes| - 1])]
  }

  function CseqValue(n: nat, verb: string): string { Print(n) + (" " + verb) }

  function RequestHeaders(verb: string, id: Identity): seq<string> {
    [Line(Via, id.topVia), MaxForwardsLine()] + RouteLines(id.routes)
    + [Line(From, id.from), Line(To, id.to), Line(CallId, id.callId),
       Line(CSeq, CseqValue(id.cseq, verb)), ContentLengthLine()]
  }

  function StartLine(verb: string, uri: string): string { verb + " " + (uri + " " + "SIP/2.0") }

  /** The request a CANCEL or an ACK is: the INVITE's identity under another method. */
  function RequestText(verb: string, id: Identity): string {
    Render(StartLine(verb, id.requestUri), RequestHeaders(verb, id), "")
  }

  /** Section 9.1 of RFC 3261. The program prints no Route line in a CANCEL. */
  function BuildCancel(raw: string): Option<string> {
    match ParseIdentity("INVITE", raw)
    case None => None
    case Some(id) => Some(RequestText("CANCEL", id.(routes := [])))
  }

  /** Section 17.1.1.3 of RFC 3261: `To` comes from the response. */
  function BuildAckForNon2xx(raw: string, responseTo: string): Option<string> {
    match ParseIdentity("INVITE", raw)
    case None => None
    case Some(id) => Some(RequestText("ACK", id.(to := Trim(responseTo))))
  }

  predicate CleanValue(v: string) { Find(v, CRLF).None? && Trimmed(v) }

  /** What parsing leaves in an identity: single-line, trimmed values. */
  predicate CleanIdentity(id: Identity) {
    && Find(id.requestUri, CRLF).None? && ' ' !in id.requestUri
    && CleanValue(id.topVia) && CleanValue(id.from) && CleanValue(id.to) && CleanValue(id.callId)
    && id.cseq < U32
    && forall k :: 0 <= k < |id.routes| ==> CleanValue(id.routes[k])
  }

  /** A method name: one word without a colon or a line end. */
  predicate IsVerb(verb: string) {
    verb != "" && ' ' !in verb && '\r' !in verb && Trimmed(verb) && forall j :: 0 <= j < |verb| ==> !IsWhite(verb[j])
  }

  lemma {:induction false} NoCr(s: string)
    requires '\r' !in s
    ensures Find(s, CRLF).None?
  {
    hide Find;
    FindCrlf(s);
  }

  lemma {:induction false} CleanConcat(a: string, b: string)
    requires Find(a, CRLF).None? && Find(b, CRLF).None?
    requires a == "" || a[|a| - 1] != '\r'
    ensures Find(a + b, CRLF).None?
  {
    hide Find;
    FindCrlf(a);
    FindCrlf(b);
    var s := a + b;
    forall j | 0 <= j <= |s| ensures !CrlfAt(s, j) {
      if j + 2 <= |a| { assert !CrlfAt(a, j); } else if j >= |a| { assert !CrlfAt(b, j - |a|); }
    }
    FindCrlf(s);
  }

  /** A printed header line is one line. */
  lemma {:induction false} HeaderIsLine(name: string, value: string)
    requires '\r' !in name && Find(value, CRLF).None?
    ensures IsLine(Header(name, value))
  {
    hide Find;
    NoCr(name + ": ");
    CleanConcat(name + ": ", value);
    assert name + ": " + value == Header(name, value);
  }

  predicate GoodName(name: string) { ':' !in name && '\r' !in name && Trimmed(name) }

  lemma GoodPrintedName(f: Field)
    ensures GoodName(PrintedName(f))
  {
    hide IsWhite;
    NotWhite();
  }

  lemma NotWhite()
    ensures forall c: char :: 'A' <= c <= 'Z' || 'a' <= c <= 'z' ==> !IsWhite(c)
  {
  }

  lemma LowerShort()
    ensures Lower("Via") == "via" && Lower("To") == "to" && Lower("From") == "from"
  {
    hide Lower;
    LowerIs("Via", "via");
    LowerIs("To", "to");
    LowerIs("From", "from");
  }

  lemma LowerLong()
    ensures Lower("CSeq") == "cseq" && Lower("Route") == "route" && Lower("Call-ID") == "call-id"
  {
    hide Lower;
    LowerIs("CSeq", "cseq");
    LowerIs("Route", "route");
    LowerIs("Call-ID", "call-id");
  }

  /** Printed names are read back as the field they stand for. */
  lemma NameReads(f: Field)
    requires f != Other
    ensures FieldNamed(Lower(PrintedName(f))) == f
  {
    hide Lower;
    LowerShort();
    LowerLong();
  }

  lemma LongName(name: string)
    requires |name| > 7
    ensures FieldNamed(Lower(name)) == Other
  {
    hide Lower;
    assert |Lower(name)| == |name|;
  }

  lemma {:induction false} OtherReads(name: string, value: string)
    requires |name| > 7 && GoodName(name) && '\r' !in value
    ensures FieldOf(Header(name, value)) == Other && IsLine(Header(name, value))
  {
    hide Find, Lower, SplitOnce, FieldNamed, FieldOf, Header, Trimmed, IsLine, ValueOf, AfterColon;
    HeaderParts(name, value);
    LongName(name);
    NoCr(value);
    HeaderIsLine(name, value);
  }

  lemma MaxForwardsReads()
    ensures FieldOf(MaxForwardsLine()) == Other && IsLine(MaxForwardsLine())
  {
    hide FieldOf, IsLine, Header, GoodName;
    GoodPrintedName(Other);
    OtherReads("Max-Forwards", "70");
  }

  lemma GoodContentLength() ensures GoodName("Content-Length") {
    hide IsWhite;
    NotWhite();
  }

  lemma ContentLengthReads()
    ensures FieldOf(ContentLengthLine()) == Other && IsLine(ContentLengthLine())
  {
    hide FieldOf, IsLine, Header, GoodName;
    GoodContentLength();
    OtherReads("Content-Length", "0");
  }

  lemma {:induction false} LineReads(f: Field, value: string)
    requires f != Other && CleanValue(value)
    ensures FieldOf(Line(f, value)) == f && ValueOf(Line(f, value)) == value
    ensures AfterColon(Line(f, value)) == " " + value
    ensures IsLine(Line(f, value))
  {
    hide FieldOf, FieldNamed, Header, IsLine, ValueOf, AfterColon, PrintedName, Lower, Trim;
    NameReads(f);
    GoodPrintedName(f);
    HeaderParts(PrintedName(f), value);
    HeaderIsLine(PrintedName(f), value);
    TrimIsTrimmed(value);
  }

  lemma {:induction false} RouteLinesRead(routes: seq<string>)
    requires forall k :: 0 <= k < |routes| ==> CleanValue(routes[k])
    ensures All(RouteLines(routes), Route) == routes && AreLines(RouteLines(routes))
    ensures forall j :: 0 <= j < |RouteLines(routes)| ==> FieldOf(RouteLines(routes)[j]) == Route
  {
    hide FieldOf, ValueOf, CleanValue, IsLine, Line, All;
    if routes == [] {
      NoLines(Route);
    } else {
      var n := |routes| - 1;
      RouteLinesRead(routes[..n]);
      LineReads(Route, routes[n]);
      AllSnoc(RouteLines(routes[..n]), Line(Route, routes[n]), Route);
      assert routes == routes[..n] + [routes[n]];
    }
  }

  lemma NoLines(f: Field) ensures All([], f) == [] {}

  lemma AllSnoc(block: seq<string>, l: string, f: Field)
    requires FieldOf(l) == f
    ensures All(block + [l], f) == All(block, f) + [ValueOf(l)]
  {
    hide FieldOf, ValueOf;
    assert (block + [l])[..|block|] == block;
  }

  lemma {:induction false} CseqValueReads(n: nat, verb: string)
    requires n < U32 && IsVerb(verb)
    ensures CleanValue(CseqValue(n, verb))
    ensures CseqNumber(CseqValue(n, verb)) == Some(n)
    ensures CseqParts(CseqValue(n, verb)) == Some((n, verb)) && CseqValue(n, verb) == Print(n) + " " + verb
  {
    hide ParseU32, Print, Find, NextWord, DecimalValue, IsWhite;
    var p := Print(n);
    var v := p + (" " + verb);
    DigitsNotWhite(p);
    assert '\r' !in v by { assert forall i :: 0 <= i < |p| ==> IsDigit(p[i]); }
    NoCr(v);
    assert v[0] == p[0] && v[|v| - 1] == verb[|verb| - 1];
    ParsePrint(n);
    assert v == "" + p + (" " + verb) && v == p + " " + verb;
    OneBlank();
    NextWordIs("", p, " " + verb);
    assert " " + verb == " " + verb + "";
    NextWordIs(" ", verb, "");
  }

  lemma DigitsNotWhite(s: string)
    requires forall i :: 0 <= i < |s| ==> IsDigit(s[i])
    ensures forall i :: 0 <= i < |s| ==> !IsWhite(s[i])
  {
  }

  lemma {:induction false} StartLineReads(verb: string, uri: string)
    requires IsVerb(verb) && ' ' !in uri && Find(uri, CRLF).None?
    ensures RequestUri(StartLine(verb, uri), verb) == Some(uri)
    ensures Find(StartLine(verb, uri), CRLF).None?
  {
    hide Find;
    FindChar(verb, ' ');
    FindChar(uri, ' ');
    SplitOnceAt(verb, " ", uri + " " + "SIP/2.0");
    SplitOnceAt(uri, " ", "SIP/2.0");
    NoCr(verb + " ");
    NoCr(" SIP/2.0");
    TailIsClean(uri);
    CleanConcat(verb + " ", uri + " " + "SIP/2.0");
  }

  lemma {:induction false} TailIsClean(uri: string)
    requires Find(uri, CRLF).None?
    ensures Find(uri + " " + "SIP/2.0", CRLF).None?
  {
    hide Find;
    FindCrlf(uri);
    var s := uri + " " + "SIP/2.0";
    forall j | 0 <= j <= |s| ensures !CrlfAt(s, j) {
      if j + 2 <= |uri| { assert !CrlfAt(uri, j); }
    }
    FindCrlf(s);
  }

  lemma LinesTogether(a: seq<string>, b: seq<string>)
    requires AreLines(a) && AreLines(b)
    ensures AreLines(a + b)
  {
    hide IsLine;
  }

  /** The header block of a printed request, field by field. */
  lemma {:induction false} RequestHeadersRead(verb: string, id: Identity)
    requires IsVerb(verb) && CleanIdentity(id)
    ensures var block := RequestHeaders(verb, id);
            && AreLines(block)
            && First(block, Via) == Some(Line(Via, id.topVia))
            && Last(block, From) == Some(Line(From, id.from))
            && Last(block, To) == Some(Line(To, id.to))
            && Last(block, CallId) == Some(Line(CallId, id.callId))
            && Last(block, CSeq) == Some(Line(CSeq, CseqValue(id.cseq, verb)))
            && All(block, Route) == id.routes
  {
    hide FieldOf, ValueOf, IsLine, Line, CseqValue, CseqNumber, CleanValue, First, Last, All, RouteLines, AfterColon;
    hide MaxForwardsLine, ContentLengthLine, CseqParts, IsVerb, Find, Print;
    CseqValueReads(id.cseq, verb);
    RouteLinesRead(id.routes);
    MaxForwardsReads();
    ContentLengthReads();
    LineReads(Via, id.topVia);
    LineReads(From, id.from);
    LineReads(To, id.to);
    LineReads(CallId, id.callId);
    LineReads(CSeq, CseqValue(id.cseq, verb));
    var a := [Line(Via, id.topVia), MaxForwardsLine()];
    var b := [Line(From, id.from), Line(To, id.to), Line(CallId, id.callId), Line(CSeq, CseqValue(id.cseq, verb)),
              ContentLengthLine()];
    assert AreLines(a) && AreLines(b);
    hide AreLines;
    LinesTogether(a, RouteLines(id.routes));
    LinesTogether(a + RouteLines(id.routes), b);
    BlockReads(a, RouteLines(id.routes), b);
  }

  /** Where the lines of a request's header block are found. */
  lemma {:induction false} BlockFields(block: seq<string>, k: nat)
    requires 2 <= k && |block| == k + 5
    requires FieldOf(block[0]) == Via && FieldOf(block[1]) == Other
             && (forall j :: 2 <= j < k ==> FieldOf(block[j]) == Route)
    requires FieldOf(block[k]) == From && FieldOf(block[k + 1]) == To && FieldOf(block[k + 2]) == CallId
             && FieldOf(block[k + 3]) == CSeq && FieldOf(block[k + 4]) == Other
    ensures First(block, Via) == Some(block[0]) && Last(block, From) == Some(block[k])
            && Last(block, To) == Some(block[k + 1])
    ensures Last(block, CallId) == Some(block[k + 2]) && Last(block, CSeq) == Some(block[k + 3])
  {
    hide FieldOf, First, Last;
    FirstIs(block, Via, 0);
    LastIs(block, From, k);
    LastIs(block, To, k + 1);
    LastIs(block, CallId, k + 2);
    LastIs(block, CSeq, k + 3);
  }

  lemma {:induction false} BlockRoutes(a: seq<string>, routes: seq<string>, b: seq<string>)
    requires (forall j :: 0 <= j < |a| ==> FieldOf(a[j]) != Route)
             && (forall j :: 0 <= j < |b| ==> FieldOf(b[j]) != Route)
    ensures All(a + routes + b, Route) == All(routes, Route)
  {
    hide FieldOf, All;
    AllConcat(a + routes, b, Route);
    AllConcat(a, routes, Route);
    AllNone(a, Route);
    AllNone(b, Route);
  }

  /** `s` is `a`, `r` and `b` in a row, line by line. */
  ghost predicate InRow(s: seq<string>, a: seq<string>, r: seq<string>, b: seq<string>) {
    && |s| == |a| + |r| + |b| && (forall j :: 0 <= j < |a| ==> s[j] == a[j])
    && (forall j :: |a| <= j < |a| + |r| ==> s[j] == r[j - |a|])
    && (forall j :: 0 <= j < |b| ==> s[|a| + |r| + j] == b[j])
  }

  lemma Joined(a: seq<string>, r: seq<string>, b: seq<string>)
    ensures InRow(a + r + b, a, r, b)
  {
  }

  lemma {:induction false} RowReads(block: seq<string>, a: seq<string>, routes: seq<string>, b: seq<string>)
    requires InRow(block, a, routes, b)
    requires |a| == 2 && FieldOf(a[0]) == Via && FieldOf(a[1]) == Other
    requires forall j :: 0 <= j < |routes| ==> FieldOf(routes[j]) == Route
    requires |b| == 5 && FieldOf(b[0]) == From && FieldOf(b[1]) == To && FieldOf(b[2]) == CallId
             && FieldOf(b[3]) == CSeq && FieldOf(b[4]) == Other
    ensures First(block, Via) == Some(a[0]) && Last(block, From) == Some(b[0]) && Last(block, To) == Some(b[1])
    ensures Last(block, CallId) == Some(b[2]) && Last(block, CSeq) == Some(b[3])
  {
    hide FieldOf, First, Last;
    BlockFields(block, 2 + |routes|);
  }

  lemma {:induction false} BlockReads(a: seq<string>, routes: seq<string>, b: seq<string>)
    requires |a| == 2 && FieldOf(a[0]) == Via && FieldOf(a[1]) == Other
    requires forall j :: 0 <= j < |routes| ==> FieldOf(routes[j]) == Route
    requires |b| == 5 && FieldOf(b[0]) == From && FieldOf(b[1]) == To && FieldOf(b[2]) == CallId
             && FieldOf(b[3]) == CSeq && FieldOf(b[4]) == Other
    ensures var block := a + routes + b;
            && First(block, Via) == Some(a[0]) && Last(block, From) == Some(b[0]) && Last(block, To) == Some(b[1])
            && Last(block, CallId) == Some(b[2]) && Last(block, CSeq) == Some(b[3])
            && All(block, Route) == All(routes, Route)
  {
    hide FieldOf, First, Last, All, InRow;
    Joined(a, routes, b);
    RowReads(a + routes + b, a, routes, b);
    BlockRoutes(a, routes, b);
  }

  lemma {:induction false} RenderedBlock(start: string, headers: seq<string>, body: string)
    requires Find(start, CRLF).None? && AreLines(headers)
    ensures var lines := Split(Render(start, headers, body), CRLF);
            lines[0] == start && HeaderBlock(lines) == headers
  {
    hide Find, Split, Render;
    RenderSplit(start, headers, body);
    var lines := Split(Render(start, headers, body), CRLF);
    assert lines[1 + |headers|] == "";
    assert forall k :: 1 <= k <= |headers| ==> lines[k] == headers[k - 1];
    var e := BlockEnd(lines, 1);
    assert e == 1 + |headers|;
    assert lines[1..e] == headers;
  }

  /** Printing an identity as a request and parsing that request gives the identity back,
      whatever the method, its top branch is that of the Via, and its CSeq line carries the
      number and the method of the start line. */
  lemma {:induction false} RequestRoundTrip(verb: string, id: Identity)
    requires IsVerb(verb) && CleanIdentity(id)
    ensures ParseIdentity(verb, RequestText(verb, id)) == Some(id)
    ensures TopViaBranch(RequestText(verb, id)) == BranchOf(id.topVia)
    ensures CarriesCseq(RequestText(verb, id), id.cseq, verb)
  {
    hide Find, Split, Render, FieldOf, ValueOf, RequestUri, CseqNumber, BranchOf, Line, AfterColon, StartLine;
    hide First, Last, All, HeaderBlock, RequestHeaders, CseqValue, CleanValue, IsLine, CseqParts, Print;
    StartLineReads(verb, id.requestUri);
    RequestHeadersRead(verb, id);
    RenderedBlock(StartLine(verb, id.requestUri), RequestHeaders(verb, id), "");
    CseqValueReads(id.cseq, verb);
    LineReads(Via, id.topVia);
    LineReads(From, id.from);
    LineReads(To, id.to);
    LineReads(CallId, id.callId);
    LineReads(CSeq, CseqValue(id.cseq, verb));
    BranchTrimmed(id.topVia);
  }

  lemma {:induction false} SuffixClean(a: string, b: string)
    requires Find(a + b, CRLF).None?
    ensures Find(b, CRLF).None?
  {
    hide Find;
    SliceClean(a + b, CRLF, |a|, |a + b|);
    assert (a + b)[|a|..|a + b|] == b;
  }

  lemma {:induction false} PrefixClean(a: string, b: string)
    requires Find(a + b, CRLF).None?
    ensures Find(a, CRLF).None?
  {
    hide Find;
    SliceClean(a + b, CRLF, 0, |a|);
    assert (a + b)[0..|a|] == a;
  }

  lemma {:induction false} ValueClean(line: string)
    requires Find(line, CRLF).None?
    ensures CleanValue(ValueOf(line))
  {
    hide Find, Trim;
    var v := AfterColon(line);
    match SplitOnce(line, ":")
    case None => NoCr(v);
      TrimClean(v, CRLF);
      TrimIsTrimmed(v);
    case Some(p) =>
      SuffixClean(p.0 + ":", p.1);
      TrimClean(v, CRLF);
      TrimIsTrimmed(v);
  }

  lemma {:induction false} UriClean(start: string, verb: string)
    requires Find(start, CRLF).None? && RequestUri(start, verb).Some?
    ensures Find(RequestUri(start, verb).value, CRLF).None? && ' ' !in RequestUri(start, verb).value
  {
    hide Find, SplitOnce;
    var p := SplitOnce(start, " ").value;
    SuffixClean(p.0 + " ", p.1);
    match SplitOnce(p.1, " ")
    case None => FindChar(p.1, ' ');
    case Some(q) =>
      ThreeParts(q.0, " ", q.1);
      PrefixClean(q.0, " " + q.1);
      FindChar(q.0, ' ');
  }

  lemma {:induction false} AllClean(block: seq<string>, f: Field)
    requires forall k :: 0 <= k < |block| ==> Find(block[k], CRLF).None?
    ensures forall k :: 0 <= k < |All(block, f)| ==> CleanValue(All(block, f)[k])
  {
    hide Find, FieldOf, ValueOf, CleanValue;
    if block != [] {
      AllClean(block[..|block| - 1], f);
      ValueClean(block[|block| - 1]);
    }
  }

  /** Whatever the text, a parsed identity is made of clean values. */
  lemma {:induction false} ParsedIsClean(verb: string, raw: string)
    requires ParseIdentity(verb, raw).Some?
    ensures CleanIdentity(ParseIdentity(verb, raw).value)
  {
    hide Find, Split, FieldOf, ValueOf, CleanValue, RequestUri, CseqNumber, First, Last, All;
    SplitClean(raw, CRLF);
    var lines := Split(raw, CRLF);
    var block := HeaderBlock(lines);
    assert forall k :: 0 <= k < |block| ==> block[k] == lines[k + 1];
    UriClean(lines[0], verb);
    AllClean(block, Route);
    ValueClean(First(block, Via).value);
    ValueClean(Last(block, From).value);
    ValueClean(Last(block, To).value);
    ValueClean(Last(block, CallId).value);
    NumberBound(ValueOf(Last(block, CSeq).value));
  }

  lemma NumberBound(v: string)
    ensures CseqNumber(v).Some? ==> CseqNumber(v).value < U32
  {
    hide ParseU32, NextWord;
  }

  lemma {:induction false} OriginalBranch(raw: string)
    requires ParseIdentity("INVITE", raw).Some?
    ensures TopViaBranch(raw) == BranchOf(ParseIdentity("INVITE", raw).value.topVia)
  {
    hide Find, Split, FieldOf, RequestUri, CseqNumber, BranchOf, First, Last, All, HeaderBlock, Trim, AfterColon;
    BranchTrimmed(AfterColon(First(HeaderBlock(Split(raw, CRLF)), Via).value));
  }

  lemma Verbs() ensures IsVerb("CANCEL") && IsVerb("ACK") {
    hide IsWhite;
    NotWhite();
  }

  /** The CANCEL built from any INVITE is a request with the INVITE's URI, Via, From, To,
      Call-ID and CSeq number under the method CANCEL, and so with its top branch. It
      exists exactly when the INVITE can be parsed. */
  lemma {:induction false} CancelMatchesInvite(raw: string)
    ensures BuildCancel(raw).Some? <==> ParseIdentity("INVITE", raw).Some?
    ensures BuildCancel(raw).Some? ==>
              && ParseIdentity("CANCEL", BuildCancel(raw).value)
                 == Some(ParseIdentity("INVITE", raw).value.(routes := []))
              && TopViaBranch(BuildCancel(raw).value) == TopViaBranch(raw)
              && CarriesCseq(BuildCancel(raw).value, ParseIdentity("INVITE", raw).value.cseq, "CANCEL")
  {
    hide CarriesCseq, ParseIdentity, RequestText, TopViaBranch, BranchOf, CleanValue, IsVerb, Find;
    if ParseIdentity("INVITE", raw).Some? {
      ParsedIsClean("INVITE", raw);
      OriginalBranch(raw);
      Verbs();
      RequestRoundTrip("CANCEL", ParseIdentity("INVITE", raw).value.(routes := []));
    }
  }

  /** The ACK for a rejected INVITE keeps everything of it but `To`, Routes
      included, and takes `To` from the response. */
  lemma {:induction false} AckMatchesInvite(raw: string, responseTo: string)
    requires Find(responseTo, CRLF).None?
    ensures BuildAckForNon2xx(raw, responseTo).Some? <==> ParseIdentity("INVITE", raw).Some?
    ensures BuildAckForNon2xx(raw, responseTo).Some? ==>
              && ParseIdentity("ACK", BuildAckForNon2xx(raw, responseTo).value)
                 == Some(ParseIdentity("INVITE", raw).value.(to := Trim(responseTo)))
              && TopViaBranch(BuildAckForNon2xx(raw, responseTo).value) == TopViaBranch(raw)
              && CarriesCseq(BuildAckForNon2xx(raw, responseTo).value, ParseIdentity("INVITE", raw).value.cseq, "ACK")
  {
    hide CarriesCseq, ParseIdentity, RequestText, TopViaBranch, BranchOf, IsVerb, Find, Trim, Trimmed;
    if ParseIdentity("INVITE", raw).Some? {
      ParsedIsClean("INVITE", raw);
      OriginalBranch(raw);
      Verbs();
      TrimClean(responseTo, CRLF);
      TrimIsTrimmed(responseTo);
      RequestRoundTrip("ACK", ParseIdentity("INVITE", raw).value.(to := Trim(responseTo)));
    }
  }
}
