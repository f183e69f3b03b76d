/** `renew_invite_transaction` of `sip_builder.rs`: a stored INVITE becomes a new
    transaction with a fresh top branch and the next CSeq number. */
module InviteRenewal {
  import opened Prelude
  import opened Text
  import opened SipMessage
  import opened SipBuilder

  predicate IsViaLine(line: string) { "via" + ":" <= Lower(line) || "v" + ":" <= Lower(line) }

  predicate IsCseqLine(line: string) { "cseq" + ":" <= Lower(line) }

  /** From the first `;` or `,` on. */
  function NextParam(s: string): string {
    if s == "" || s[0] == ';' || s[0] == ',' then s else NextParam(s[1..])
  }

  /** The branch parameter replaced, or appended when there is none. */
  function Rebranched(s: string, br: string): string {
    match Find(s, BRANCH)
    case None => s + (";" + BRANCH + br)
    case Some(pos) => s[..pos + |BRANCH|] + (br + NextParam(s[pos + |BRANCH|..]))
  }

  /** The CSeq line with the next number (`u32` addition). */
  function Bump(line: string): string
    requires |line| >= 5
  {
    match CseqParts(line[5..])
    case None => line
    case Some(p) => Line(CSeq, CseqValue((p.0 + 1) % U32, p.1))
  }

  ghost predicate ViaBefore(lines: seq<string>, k: int) {
    exists j :: 1 <= j < k && j < |lines| && IsViaLine(lines[j])
  }

  /** What line `k` of the header block becomes. */
  ghost function RenewedLine(lines: seq<string>, k: nat, br: string): string
    requires k < |lines|
  {
    if k == 0 then lines[0]
    else if IsViaLine(lines[k]) && !ViaBefore(lines, k) then Rebranched(lines[k], br)
    else if IsCseqLine(lines[k]) then Bump(lines[k])
    else lines[k]
  }

  ghost function RenewedLines(lines: seq<string>, br: string): (r: seq<string>)
    ensures |r| == |lines|
  {
    seq(|lines|, k requires 0 <= k < |lines| => RenewedLine(lines, k, br))
  }

  function HeadOf(raw: string): string {
    match Find(raw, BLANK_LINE)
    case None => raw
    case Some(pos) => raw[..pos]
  }

  function BodyOf(raw: string): string {
    match Find(raw, BLANK_LINE)
    case None => ""
    case Some(pos) => raw[pos + 4..]
  }

  ghost function Renew(raw: string, br: string): string {
    Join(RenewedLines(Split(HeadOf(raw), CRLF), br), CRLF) + (CRLF + CRLF + BodyOf(raw))
  }

  /** The in-place line loop of the program. */
  method RenewInviteTransaction(raw: string, br: string) returns (out: string)
    ensures out == Renew(raw, br)
  {
    hide Split, Join, Find, Rebranched, Bump, Lower, IsViaLine;
    var lines := Split(HeadOf(raw), CRLF);
    ghost var original := lines;
    var viaDone := false;
    for k := 1 to |lines|
      invariant |lines| == |original|
      invariant viaDone <==> ViaBefore(original, k)
      invariant forall j :: 0 <= j < k ==> lines[j] == RenewedLine(original, j, br)
      invariant forall j :: k <= j < |lines| ==> lines[j] == original[j]
    {
      var line := lines[k];
      if !viaDone && IsViaLine(line) {
        lines := lines[k := Rebranched(line, br)];
        viaDone := true;
      } else if IsCseqLine(line) {
        lines := lines[k := Bump(line)];
      }
    }
    assert lines == RenewedLines(original, br);
    out := Join(lines, CRLF) + (CRLF + CRLF + BodyOf(raw));
  }

  // ------------------------------------------------------------------
  // Prefix tests and field names agree
  // ------------------------------------------------------------------

  /** Header names touch their colon: no white space around the name. */
  predicate Touches(line: string) {
    var p := SplitOnce(line, ":");
    p.Some? ==> Trimmed(p.value.0)
  }

  lemma HeaderTouches(name: string, value: string)
    requires ':' !in name && Trimmed(name)
    ensures Touches(Header(name, value))
  {
    hide Trimmed, SplitOnce, Find;
    FindChar(name, ':');
    SplitOnceAt(name, ":", " " + value);
  }

  lemma PrintedTouches(f: Field, value: string)
    ensures Touches(Line(f, value))
  {
    hide Trimmed, Touches, PrintedName, Header;
    GoodPrintedName(f);
    HeaderTouches(PrintedName(f), value);
  }

  lemma LowerColon(c: char)
    ensures LowerChar(c) == ':' <==> c == ':'
  {
  }

  lemma {:induction false} NamePrefix(line: string, name: string)
    requires ':' !in name
    ensures name + ":" <= Lower(line) <==> SplitOnce(line, ":").Some? && Lower(SplitOnce(line, ":").value.0) == name
  {
    hide Lower, SplitOnce;
    if name + ":" <= Lower(line) { NameFromPrefix(line, name); }
    if SplitOnce(line, ":").Some? && Lower(SplitOnce(line, ":").value.0) == name {
      PrefixFromName(SplitOnce(line, ":").value.0, SplitOnce(line, ":").value.1);
    }
  }

  lemma NameFromPrefix(line: string, name: string)
    requires ':' !in name && name + ":" <= Lower(line)
    ensures SplitOnce(line, ":").Some? && Lower(SplitOnce(line, ":").value.0) == name
  {
    hide LowerChar, Find, SplitOnce;
    var low, n := Lower(line), |name|;
    LowerFacts(line);
    forall i | 0 <= i < |line| ensures low[i] == ':' <==> line[i] == ':' { LowerColon(line[i]); }
    forall i | 0 <= i <= n ensures low[i] == (name + ":")[i] {}
    var a, b := line[..n], line[n + 1..];
    assert line == a + ":" + b;
    LowerFacts(a);
    assert Lower(a) == name;
    FindChar(a, ':');
    SplitOnceAt(a, ":", b);
  }

  lemma PrefixFromName(a: string, b: string)
    ensures Lower(a) + ":" <= Lower(a + ":" + b)
  {
    LowerColon(':');
    hide LowerChar, Lower;
    LowerFacts(a);
    LowerFacts(a + ":" + b);
  }

  lemma {:induction false} LineTests(line: string)
    requires Touches(line)
    ensures IsViaLine(line) <==> FieldOf(line) == Via
    ensures IsCseqLine(line) <==> FieldOf(line) == CSeq
  {
    hide Lower, SplitOnce, Trimmed;
    NamePrefix(line, "via");
    NamePrefix(line, "v");
    NamePrefix(line, "cseq");
    if SplitOnce(line, ":").Some? { TrimIsTrimmed(SplitOnce(line, ":").value.0); }
    hide Trim;
    FieldNames(if SplitOnce(line, ":").Some? then Lower(SplitOnce(line, ":").value.0) else "");
  }

  lemma FieldNames(name: string)
    ensures FieldNamed(name) == Via <==> name == "via" || name == "v"
    ensures FieldNamed(name) == CSeq <==> name == "cseq"
  {
  }

  // ------------------------------------------------------------------
  // The renewed Via line
  // ------------------------------------------------------------------

  /** A fresh branch token, as `new_branch` makes it. */
  predicate IsBranch(br: string) {
    br != "" && forall j :: 0 <= j < |br| ==> !EndsBranch(br[j])
  }

  lemma NextParamStart(s: string)
    ensures NextParam(s) != "" ==> NextParam(s)[0] == ';' || NextParam(s)[0] == ','
    ensures |NextParam(s)| <= |s| && NextParam(s) == s[|s| - |NextParam(s)|..]
  {
  }

  lemma {:induction false} FindKept(a: string, tail: string, pos: nat, s: string)
    requires Find(s, BRANCH) == Some(pos) && pos + |BRANCH| <= |s| && a == s[..pos + |BRANCH|]
    ensures Find(a + tail, BRANCH) == Some(pos)
  {
    hide Find;
    SliceOfSlice(s, 0, pos + |BRANCH|, pos, pos + |BRANCH|);
    assert OccursAt(a, BRANCH, pos);
    FindFirst(a, BRANCH, pos);
    var i := Find(a, BRANCH).value;
    SliceOfSlice(s, 0, pos + |BRANCH|, i, i + |BRANCH|);
    FindFirst(s, BRANCH, i);
    FindPrefix(a, BRANCH, tail);
  }

  lemma {:induction false} FindNew(s: string, br: string)
    requires Find(s, BRANCH).None?
    ensures Find(s + (";" + BRANCH + br), BRANCH) == Some(|s| + 1)
  {
    hide Find;
    var t := s + (";" + BRANCH + br);
    FindNothing(s, BRANCH);
    assert t[|s|] == ';';
    forall j | 0 <= j < |s| + 1 ensures !OccursAt(t, BRANCH, j) {
      if j + 7 <= |s| {
        assert t[j..j + 7] == s[j..j + 7];
        assert !OccursAt(s, BRANCH, j);
      } else if j + 7 <= |t| {
        assert t[j..j + 7][|s| - j] == ';';
      }
    }
    assert t[|s| + 1..|s| + 8] == BRANCH;
    FindIs(t, BRANCH, |s| + 1);
  }

  /** The renewed value carries exactly the fresh branch. */
  lemma {:induction false} RenewedBranch(v: string, br: string)
    requires IsBranch(br)
    ensures BranchOf(Rebranched(v, br)) == Some(br)
  {
    hide Find, EndsBranch, Trim, OccursAt, NextParam, BranchToken;
    BranchIsTrimmed(br);
    SemicolonEnds();
    match Find(v, BRANCH)
    case None =>
      FindNew(v, br);
      NewTail(v, br);
      BranchTokenIs(br, "");
    case Some(pos) =>
      FindFits(v, BRANCH);
      var a, rest := v[..pos + |BRANCH|], NextParam(v[pos + |BRANCH|..]);
      FindKept(a, br + rest, pos, v);
      NextParamStart(v[pos + |BRANCH|..]);
      DropFront(a, br + rest);
      BranchTokenIs(br, rest);
  }

  lemma NewTail(v: string, br: string)
    ensures (v + (";" + BRANCH + br))[|v| + 1 + |BRANCH|..] == br + "" && br + "" == br
  {
    var x := ";" + BRANCH + br;
    assert (v + x)[|v| + 8..] == x[8..];
    assert x[8..] == br;
  }

  lemma DropFront(a: string, x: string) ensures (a + x)[|a|..] == x {}

  lemma SemicolonEnds() ensures EndsBranch(';') && EndsBranch(',') && !EndsBranch('=') {}

  lemma BranchIsTrimmed(br: string)
    requires IsBranch(br)
    ensures Trim(br) == br && Find(br, CRLF).None? && '\r' !in br
  {
    hide Find, Trim;
    TrimIsTrimmed(br);
    assert EndsBranch('\r');
    NoCr(br);
  }

  /** Renewing a line whose name cannot hold `branch=` renews its value. */
  lemma {:induction false} RebranchedAfterName(name: string, v: string, br: string)
    requires |name| < 7 && ':' !in name
    ensures Rebranched(name + ":" + v, br) == name + ":" + Rebranched(v, br)
  {
    hide Find, NextParam, OccursAt;
    var p := name + ":";
    forall j | 0 <= j < |p| ensures !OccursAt(p + v, BRANCH, j) { NotInName(name, v, j); }
    ShiftFind(p, v);
    if Find(v, BRANCH).Some? {
      FindFits(v, BRANCH);
      SliceMoved(p, v, Find(v, BRANCH).value + |BRANCH|, br);
    } else {
      ThreeParts(p, v, ";" + BRANCH + br);
    }
  }

  lemma NotInName(name: string, v: string, j: nat)
    requires |name| < 7 && ':' !in name && j <= |name|
    ensures !OccursAt(name + ":" + v, BRANCH, j)
  {
    var s := name + ":" + v;
    assert s[|name|] == ':';
    if j + 7 <= |s| { assert s[j..j + 7][|name| - j] == ':'; }
  }

  lemma SliceMoved(p: string, v: string, i: nat, br: string)
    requires i <= |v|
    ensures (p + v)[|p| + i..] == v[i..] && (p + v)[..|p| + i] == p + v[..i]
    ensures forall x: string :: (p + v[..i]) + x == p + (v[..i] + x)
  {
    forall x: string ensures (p + v[..i]) + x == p + (v[..i] + x) { ThreeParts(p, v[..i], x); }
  }

  lemma {:induction false} ShiftFind(p: string, v: string)
    requires forall j :: 0 <= j < |p| ==> !OccursAt(p + v, BRANCH, j)
    ensures Find(v, BRANCH).None? <==> Find(p + v, BRANCH).None?
    ensures Find(v, BRANCH).Some? ==> Find(p + v, BRANCH) == Some(|p| + Find(v, BRANCH).value)
  {
    hide Find;
    var s := p + v;
    forall j | 0 <= j <= |v| ensures OccursAt(s, BRANCH, |p| + j) <==> OccursAt(v, BRANCH, j) {
      if j + 7 <= |v| { assert s[|p| + j..|p| + j + 7] == v[j..j + 7]; }
    }
    FindNothing(v, BRANCH);
    FindNothing(s, BRANCH);
    if Find(v, BRANCH).Some? {
      var i := Find(v, BRANCH).value;
      forall j | 0 <= j < |p| + i ensures !OccursAt(s, BRANCH, j) {
        if |p| <= j {
          NotBefore(v, BRANCH, j - |p|);
          assert OccursAt(s, BRANCH, |p| + (j - |p|)) <==> OccursAt(v, BRANCH, j - |p|);
        }
      }
      FindIs(s, BRANCH, |p| + i);
    } else {
      forall j | 0 <= j <= |s| ensures !OccursAt(s, BRANCH, j) {
        if |p| <= j { assert OccursAt(s, BRANCH, |p| + (j - |p|)) <==> OccursAt(v, BRANCH, j - |p|); }
      }
    }
  }

  /** A renewed line is still one line. */
  lemma {:induction false} RebranchedIsLine(line: string, br: string)
    requires IsLine(line) && IsBranch(br)
    ensures IsLine(Rebranched(line, br))
  {
    hide Find, EndsBranch, OccursAt, NextParam;
    BranchIsTrimmed(br);
    match Find(line, BRANCH)
    case None =>
      NewParamClean(br);
      NoCrTail(line, ";" + BRANCH + br);
    case Some(pos) =>
      EndsInEquals(line);
      RenewedIsLine(line, pos + |BRANCH|, br);
  }

  lemma NewParamClean(br: string)
    requires '\r' !in br
    ensures var t := ";" + BRANCH + br; t != "" && '\r' !in t && t[0] != '\n'
  {
    assert '\r' !in BRANCH && '\r' !in ";";
    var t := ";" + BRANCH;
    assert '\r' !in t;
  }

  lemma {:induction false} RenewedIsLine(line: string, i: nat, br: string)
    requires IsLine(line) && IsBranch(br) && 0 < i <= |line| && line[i - 1] == '='
    ensures IsLine(line[..i] + (br + NextParam(line[i..])))
  {
    hide Find, EndsBranch, NextParam, IsLine, IsBranch;
    BranchIsTrimmed(br);
    FrontClean(line, i);
    BackClean(line, i);
    NotEmpty(br);
    ThreeClean(line[..i], br, NextParam(line[i..]));
  }

  lemma NotEmpty(br: string)
    requires IsBranch(br)
    ensures br != ""
  {
  }

  lemma FrontClean(line: string, i: nat)
    requires IsLine(line) && 0 < i <= |line|
    ensures Find(line[..i], CRLF).None? && line[..i] != "" && line[..i][i - 1] == line[i - 1]
  {
    hide Find;
    SliceClean(line, CRLF, 0, i);
    assert line[0..i] == line[..i];
  }

  lemma BackClean(line: string, i: nat)
    requires IsLine(line) && i <= |line|
    ensures Find(NextParam(line[i..]), CRLF).None?
  {
    hide Find, NextParam;
    var rest := NextParam(line[i..]);
    NextParamStart(line[i..]);
    SuffixOfSuffix(line, i, rest);
    SliceClean(line, CRLF, |line| - |rest|, |line|);
  }

  lemma ThreeClean(a: string, br: string, rest: string)
    requires Find(a, CRLF).None? && Find(br, CRLF).None? && Find(rest, CRLF).None?
    requires a != "" && a[|a| - 1] == '=' && br != "" && '\r' !in br
    ensures IsLine(a + (br + rest))
  {
    hide Find;
    assert br[|br| - 1] in br;
    CleanConcat(br, rest);
    CleanConcat(a, br + rest);
  }

  lemma EndsInEquals(s: string)
    requires Find(s, BRANCH).Some?
    ensures var i := Find(s, BRANCH).value + |BRANCH|; i <= |s| && s[i - 1] == '='
  {
    hide Find;
    var i := Find(s, BRANCH).value;
    assert s[i..i + |BRANCH|][6] == s[i + 6];
  }

  lemma SuffixOfSuffix(line: string, i: nat, rest: string)
    requires i <= |line| && |rest| <= |line| - i && rest == line[i..][|line| - i - |rest|..]
    ensures rest == line[|line| - |rest|..|line|]
  {
  }

  lemma {:induction false} NoCrTail(a: string, b: string)
    requires Find(a, CRLF).None? && '\r' !in b && (b != "" ==> b[0] != '\n')
    ensures Find(a + b, CRLF).None?
  {
    hide Find;
    FindCrlf(a);
    var s := a + b;
    forall j | 0 <= j <= |s| ensures !CrlfAt(s, j) {
      if j + 2 <= |a| { assert !CrlfAt(a, j); }
    }
    FindCrlf(s);
  }

  // ------------------------------------------------------------------
  // Renewal keeps the request
  // ------------------------------------------------------------------

  /** A header line the renewal understands: the name touches its colon, and a
      CSeq line holds a number that can grow and a method. */
  predicate Renewable(line: string) {
    && IsLine(line) && Touches(line)
    && (FieldOf(line) == CSeq ==>
          var p := CseqParts(AfterColon(line));
          p.Some? && p.value.0 + 1 < U32)
  }

  lemma {:induction false} CseqLineShape(line: string)
    requires Touches(line) && FieldOf(line) == CSeq
    ensures |line| >= 5 && line[5..] == AfterColon(line)
  {
    hide Lower, Trimmed, Trim;
    var p := SplitOnce(line, ":").value;
    TrimIsTrimmed(p.0);
    FieldNames(Lower(p.0));
    assert |p.0| == |Lower(p.0)| == 4;
    assert p.0 + ":" + p.1 == line;
  }

  lemma WordIsVerb(w: string)
    requires w != "" && forall j :: 0 <= j < |w| ==> !IsWhite(w[j])
    ensures IsVerb(w)
  {
    assert IsWhite(' ') && IsWhite('\r');
  }

  lemma {:induction false} CseqPartsWord(v: string)
    requires CseqParts(v).Some?
    ensures IsVerb(CseqParts(v).value.1) && CseqNumber(v) == Some(CseqParts(v).value.0)
    ensures CseqParts(v).value.0 < U32
  {
    hide NextWord, ParseU32, IsVerb;
    NextWordFacts(NextWord(v).value.1);
    WordIsVerb(CseqParts(v).value.1);
  }

  lemma {:induction false} TrimStartPad(x: string, pad: string)
    requires AllWhite(pad)
    ensures TrimStart(x + pad) == if TrimStart(x) == "" then "" else TrimStart(x) + pad
  {
    hide IsWhite;
    if x == "" {
      assert x + pad == pad;
      AllTrimmed(pad);
    } else {
      assert (x + pad)[1..] == x[1..] + pad;
      TrimStartPad(x[1..], pad);
    }
  }

  lemma {:induction false} AllTrimmed(pad: string)
    requires AllWhite(pad)
    ensures TrimStart(pad) == ""
  {
    hide IsWhite;
    if pad != "" { AllTrimmed(pad[1..]); }
  }

  /** White space at the end changes no word. */
  lemma {:induction false} NextWordPad(x: string, pad: string)
    requires AllWhite(pad)
    ensures NextWord(x + pad).Some? <==> NextWord(x).Some?
    ensures NextWord(x).Some? ==>
              NextWord(x + pad).value == (NextWord(x).value.0, NextWord(x).value.1 + pad)
  {
    hide IsWhite, TrimStart, TakeWord;
    TrimStartPad(x, pad);
    var t := TrimStart(x);
    if t != "" {
      TakeWordPad(t, pad);
      TakeWordFacts(t);
      var n := |TakeWord(t)|;
      assert (t + pad)[n..] == t[n..] + pad;
    }
  }

  lemma TrimmedStart(v: string)
    ensures TrimStart(TrimStart(v)) == TrimStart(v)
  {
    hide IsWhite;
    TrimStartFacts(v);
    NoLeading(TrimStart(v));
  }

  /** Nor do blanks around the value. */
  lemma {:induction false} PartsOfTrimmed(v: string)
    ensures CseqParts(Trim(v)) == CseqParts(v) && CseqNumber(Trim(v)) == CseqNumber(v)
  {
    hide IsWhite, TrimStart, TrimEnd, TakeWord, NextWord, ParseU32;
    var a := TrimStart(v);
    var t := TrimEnd(a);
    TrimEndFacts(a);
    var pad := a[|t|..];
    Rejoin(a, |t|);
    WordsOfTrimmed(v);
    NextWordPad(t, pad);
    if NextWord(t).Some? { NextWordPad(NextWord(t).value.1, pad); }
  }

  lemma WordsOfTrimmed(v: string)
    ensures NextWord(TrimStart(v)) == NextWord(v)
  {
    hide IsWhite, TrimStart, TakeWord;
    TrimmedStart(v);
  }

  lemma NoLeading(t: string)
    requires t != "" ==> !IsWhite(t[0])
    ensures TrimStart(t) == t
  {
  }

  lemma Rejoin(a: string, n: nat)
    requires n <= |a|
    ensures a == a[..n] + a[n..]
  {
  }

  lemma {:induction false} TakeWordPad(x: string, pad: string)
    requires pad != "" ==> IsWhite(pad[0])
    ensures TakeWord(x + pad) == TakeWord(x)
  {
    hide IsWhite;
    if x == "" {
      assert x + pad == pad;
    } else {
      assert (x + pad)[1..] == x[1..] + pad;
      TakeWordPad(x[1..], pad);
    }
  }

  /** A CSeq line and the same with the next number, method and all. */
  ghost predicate Bumped(line: string, renewed: string) {
    var p := CseqParts(ValueOf(line));
    && p.Some? && p.value.0 + 1 < U32 && CseqNumber(ValueOf(line)) == Some(p.value.0)
    && ValueOf(renewed) == Print(p.value.0 + 1) + " " + p.value.1
    && CseqParts(ValueOf(renewed)) == Some((p.value.0 + 1, p.value.1))
    && CseqNumber(ValueOf(renewed)) == Some(p.value.0 + 1)
  }

  /** A bumped CSeq line is a CSeq line with the next number. */
  lemma {:induction false} BumpedLine(line: string)
    requires Renewable(line) && FieldOf(line) == CSeq
    ensures |line| >= 5 && IsLine(Bump(line)) && FieldOf(Bump(line)) == CSeq && Bumped(line, Bump(line))
    ensures Touches(Bump(line))
  {
    hide FieldOf, CseqParts, CseqNumber, AfterColon, IsLine, Line, CseqValue, IsVerb, Touches, Trim, CleanValue, Print;
    CseqLineShape(line);
    var p := CseqParts(AfterColon(line)).value;
    CseqPartsWord(AfterColon(line));
    PartsOfTrimmed(AfterColon(line));
    CseqValueReads(p.0 + 1, p.1);
    LineReads(CSeq, CseqValue(p.0 + 1, p.1));
    PrintedTouches(CSeq, CseqValue(p.0 + 1, p.1));
  }

  /** A renewed Via line is a Via line with the fresh branch. */
  lemma {:induction false} RenewedViaLine(line: string, br: string)
    requires Renewable(line) && FieldOf(line) == Via && IsBranch(br)
    ensures IsLine(Rebranched(line, br)) && FieldOf(Rebranched(line, br)) == Via && Touches(Rebranched(line, br))
    ensures AfterColon(Rebranched(line, br)) == Rebranched(AfterColon(line), br)
    ensures BranchOf(AfterColon(Rebranched(line, br))) == Some(br)
  {
    hide Lower, Trim, Trimmed, IsLine, IsBranch, Rebranched, BranchOf;
    RebranchedIsLine(line, br);
    var p := SplitOnce(line, ":").value;
    TrimIsTrimmed(p.0);
    FieldNames(Lower(p.0));
    assert |p.0| == |Lower(p.0)| <= 3;
    FindChar(p.0, ':');
    assert p.0 + ":" + p.1 == line;
    RebranchedAfterName(p.0, p.1, br);
    SplitOnceAt(p.0, ":", Rebranched(p.1, br));
    RenewedBranch(p.1, br);
  }

  ghost predicate AllRenewable(block: seq<string>) {
    forall k :: 0 <= k < |block| ==> Renewable(block[k])
  }

  /** How one line of the block relates to its renewal. */
  ghost predicate LineKept(line: string, renewed: string) {
    && IsLine(renewed) && Touches(renewed) && FieldOf(renewed) == FieldOf(line)
    && (FieldOf(line) != Via && FieldOf(line) != CSeq ==> renewed == line)
    && (FieldOf(line) == CSeq ==> Bumped(line, renewed))
  }

  lemma {:induction false} LinesKept(start: string, block: seq<string>, br: string, k: nat)
    requires AllRenewable(block) && IsBranch(br) && k < |block|
    ensures LineKept(block[k], RenewedLine([start] + block, k + 1, br))
    ensures FieldOf(block[k]) == Via && (forall j :: 0 <= j < k ==> FieldOf(block[j]) != Via) ==>
              && BranchOf(AfterColon(RenewedLine([start] + block, k + 1, br))) == Some(br)
              && AfterColon(RenewedLine([start] + block, k + 1, br)) == Rebranched(AfterColon(block[k]), br)
  {
    hide Touches, Bumped, Renewable, IsViaLine, IsCseqLine, FieldOf, CseqNumber, ValueOf, AfterColon, IsLine, Bump,
      Rebranched, BranchOf, IsBranch;
    var lines := [start] + block;
    assert forall j :: 0 <= j < |block| ==> lines[j + 1] == block[j];
    forall j | 0 <= j < |block|
      ensures IsViaLine(block[j]) <==> FieldOf(block[j]) == Via
      ensures IsCseqLine(block[j]) <==> FieldOf(block[j]) == CSeq
    {
      RenewableTouches(block[j]);
      LineTests(block[j]);
    }
    RenewableTouches(block[k]);
    if FieldOf(block[k]) == Via {
      RenewedViaLine(block[k], br);
      if ViaBefore(lines, k + 1) {
        var j :| 1 <= j < k + 1 && j < |lines| && IsViaLine(lines[j]);
        assert FieldOf(block[j - 1]) == Via;
      }
    } else if FieldOf(block[k]) == CSeq {
      BumpedLine(block[k]);
    }
  }

  lemma RenewableTouches(line: string)
    requires Renewable(line)
    ensures Touches(line) && IsLine(line)
  {
  }

  ghost predicate BlockKept(a: seq<string>, b: seq<string>) {
    |a| == |b| && forall k :: 0 <= k < |a| ==> LineKept(a[k], b[k])
  }

  lemma {:induction false} FirstKept(a: seq<string>, b: seq<string>, f: Field) returns (i: nat)
    requires BlockKept(a, b) && First(a, f).Some?
    ensures i < |a| && First(a, f) == Some(a[i]) && First(b, f) == Some(b[i]) && FieldOf(a[i]) == f
    ensures forall j :: 0 <= j < i ==> FieldOf(a[j]) != f
  {
    hide Touches, Bumped, FieldOf, CseqNumber, ValueOf, IsLine, First;
    var w :| 0 <= w < |a| && a[w] == First(a, f).value;
    i := 0;
    while FieldOf(a[i]) != f
      invariant i <= w && forall j :: 0 <= j < i ==> FieldOf(a[j]) != f
      decreases w - i
    {
      i := i + 1;
    }
    FirstIs(a, f, i);
    FirstIs(b, f, i);
  }

  lemma {:induction false} LastKept(a: seq<string>, b: seq<string>, f: Field) returns (i: nat)
    requires BlockKept(a, b) && Last(a, f).Some?
    ensures i < |a| && Last(a, f) == Some(a[i]) && Last(b, f) == Some(b[i]) && FieldOf(a[i]) == f
  {
    hide Touches, Bumped, FieldOf, CseqNumber, ValueOf, IsLine, Last;
    var w :| 0 <= w < |a| && a[w] == Last(a, f).value;
    i := |a| - 1;
    while FieldOf(a[i]) != f
      invariant w <= i < |a| && forall j :: i < j < |a| ==> FieldOf(a[j]) != f
      decreases i
    {
      i := i - 1;
    }
    LastIs(a, f, i);
    LastIs(b, f, i);
  }

  lemma {:induction false} AllKept(a: seq<string>, b: seq<string>)
    requires BlockKept(a, b)
    ensures All(a, Route) == All(b, Route)
  {
    hide Touches, Bumped, FieldOf, CseqNumber, ValueOf, IsLine;
    if a != [] { AllKept(a[..|a| - 1], b[..|b| - 1]); }
  }

  lemma {:induction false} IdentityKept(start: string, a: seq<string>, b: seq<string>)
    requires BlockKept(a, b) && IdentityOf("INVITE", start, a).Some?
    ensures var id := IdentityOf("INVITE", start, a).value;
            var renewed := IdentityOf("INVITE", start, b);
            renewed.Some? && renewed.value == id.(topVia := renewed.value.topVia, cseq := id.cseq + 1)
  {
    hide FieldOf, CseqNumber, ValueOf, IsLine, First, Last, All, RequestUri;
    var v := FirstKept(a, b, Via);
    var f := LastKept(a, b, From);
    var t := LastKept(a, b, To);
    var c := LastKept(a, b, CallId);
    var q := LastKept(a, b, CSeq);
    AllKept(a, b);
  }

  /** The values under every name but Via and CSeq are kept. */
  lemma {:induction false} ValuesKept(a: seq<string>, b: seq<string>, low: string)
    requires BlockKept(a, b) && low != "via" && low != "v" && low != "cseq"
    ensures NamedValues(a, low) == NamedValues(b, low)
  {
    hide Touches, Bumped, CseqNumber, ValueOf, IsLine, FieldOf, NameOfLine;
    if a != [] {
      var n := |a| - 1;
      ValuesKept(a[..n], b[..n], low);
      assert LineKept(a[n], b[n]);
      NameDecides(a[n], low);
      NameDecides(b[n], low);
    }
  }

  lemma NameDecides(line: string, low: string)
    ensures NameOfLine(line) == Some(low) ==> FieldOf(line) == FieldNamed(low)
    ensures NameOfLine(line) == Some(low) && low != "via" && low != "v" && low != "cseq" ==>
              FieldOf(line) != Via && FieldOf(line) != CSeq
  {
    hide Lower, Trim, SplitOnce;
    FieldNames(low);
  }

  /** And the method of the CSeq line. */
  lemma {:induction false} CseqKept(a: seq<string>, b: seq<string>)
    requires BlockKept(a, b) && Last(a, CSeq).Some?
    ensures Last(b, CSeq).Some? && Bumped(Last(a, CSeq).value, Last(b, CSeq).value)
  {
    hide Touches, Bumped, FieldOf, IsLine, Last;
    var q := LastKept(a, b, CSeq);
    assert LineKept(a[q], b[q]);
  }

  /** The renewal of the identity of a header block: the next number, and the top Via with
      the fresh branch in the place of its own. */
  function RenewedIdentity(id: Identity, block: seq<string>, br: string): Identity
    requires First(block, Via).Some?
  {
    id.(topVia := Trim(Rebranched(AfterColon(First(block, Via).value), br)), cseq := id.cseq + 1)
  }

  /** Renewing an INVITE with a blank line keeps its body byte for byte and its URI, From,
      To, Call-ID and Routes and the rest of its top Via, raises its CSeq number by one,
      and makes the fresh branch its top branch. */
  lemma {:induction false} RenewalWithBlankLine(raw: string, br: string)
    requires Find(raw, BLANK_LINE).Some? && ParseIdentity("INVITE", raw).Some? && IsBranch(br)
    requires AllRenewable(HeaderBlock(Split(raw, CRLF)))
    ensures var id := ParseIdentity("INVITE", raw).value;
            var renewed := ParseIdentity("INVITE", Renew(raw, br));
            var block := HeaderBlock(Split(raw, CRLF));
            First(block, Via).Some? && renewed == Some(RenewedIdentity(id, block, br))
    ensures TopViaBranch(Renew(raw, br)) == Some(br)
    ensures Find(Renew(raw, br), BLANK_LINE).Some? && BodyOf(Renew(raw, br)) == BodyOf(raw)
    ensures BlockKept(HeaderBlock(Split(raw, CRLF)), HeaderBlock(Split(Renew(raw, br), CRLF)))
  {
    hide Find, Split, Join, Render, First, Last, All, FieldOf, ValueOf, AfterColon, BranchOf, IsBranch, Renewable;
    hide RequestUri, CseqNumber, IsLine, HeaderBlock, IdentityOf, LineKept, RenewedLine, Rebranched, Trim;
    var head, body := HeadOf(raw), BodyOf(raw);
    WholeText(raw);
    Structure(head, body);
    var lines := Split(head, CRLF);
    var start, block := lines[0], lines[1..];
    assert lines == [start] + block;
    RenderedBlock(start, block, body);
    var block' := RenewedLines(lines, br)[1..];
    forall k | 0 <= k < |block| ensures LineKept(block[k], block'[k]) { LinesKept(start, block, br, k); }
    KeptLines(block, block');
    KeptStart(lines, br);
    assert RenewedLines(lines, br) == [start] + block';
    RenderBody(start, block', body);
    RenderedBlock(start, block', body);
    IdentityKept(start, block, block');
    HasVia(start, block);
    BranchKept(start, block, br);
    ViaOfIdentity(start, block');
    BodyIs(Join([start] + block', CRLF), body);
  }

  lemma ViaOfIdentity(start: string, block: seq<string>)
    requires IdentityOf("INVITE", start, block).Some?
    ensures First(block, Via).Some?
            && IdentityOf("INVITE", start, block).value.topVia == ValueOf(First(block, Via).value)
  {
    hide First, Last, All, CseqNumber, ValueOf, RequestUri;
  }

  lemma HasVia(start: string, block: seq<string>)
    requires IdentityOf("INVITE", start, block).Some?
    ensures First(block, Via).Some?
  {
    hide First, Last, All, CseqNumber, ValueOf, RequestUri;
  }

  lemma {:induction false} WholeText(raw: string)
    requires Find(raw, BLANK_LINE).Some?
    ensures raw == HeadOf(raw) + (CRLF + CRLF + BodyOf(raw))
    ensures Find(HeadOf(raw) + (CRLF + CRLF + BodyOf(raw)), BLANK_LINE) == Some(|HeadOf(raw)|)
  {
    hide Find;
    var pos := Find(raw, BLANK_LINE).value;
    assert raw == raw[..pos] + raw[pos..pos + 4] + raw[pos + 4..];
    assert BLANK_LINE == CRLF + CRLF;
  }

  lemma {:induction false} BodyIs(head: string, body: string)
    requires Find(head + (CRLF + CRLF + body), BLANK_LINE) == Some(|head|)
    ensures BodyOf(head + (CRLF + CRLF + body)) == body
  {
    hide Find;
  }

  lemma KeptLines(a: seq<string>, b: seq<string>)
    requires |a| == |b| && forall k :: 0 <= k < |a| ==> LineKept(a[k], b[k])
    ensures AreLines(b)
  {
    hide Touches, Bumped, IsLine, FieldOf, CseqNumber, ValueOf;
  }

  lemma KeptStart(lines: seq<string>, br: string)
    requires |lines| >= 1
    ensures RenewedLine(lines, 0, br) == lines[0]
  {
  }

  lemma {:induction false} BranchKept(start: string, block: seq<string>, br: string)
    requires AllRenewable(block) && IsBranch(br) && First(block, Via).Some?
    requires BlockKept(block, RenewedLines([start] + block, br)[1..])
    ensures TopViaBranchOf(RenewedLines([start] + block, br)[1..]) == Some(br)
    ensures var renewed := First(RenewedLines([start] + block, br)[1..], Via);
            renewed.Some? && ValueOf(renewed.value) == Trim(Rebranched(AfterColon(First(block, Via).value), br))
  {
    hide Renewable, FieldOf, AfterColon, BranchOf, IsBranch, First, LineKept, RenewedLine, Rebranched, Trim;
    var i := FirstKept(block, RenewedLines([start] + block, br)[1..], Via);
    LinesKept(start, block, br, i);
  }
}
