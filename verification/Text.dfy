/** The string operations of the Rust standard library that the SIP text code
    is built from, with the facts about them the message proofs need. */
module Text {
  import opened Prelude

  const CRLF := "\r\n"
  const BLANK_LINE := "\r\n\r\n"

  // ------------------------------------------------------------------
  // Searching and splitting
  // ------------------------------------------------------------------

  predicate OccursAt(s: string, pat: string, i: int) {
    0 <= i && i + |pat| <= |s| && s[i..i + |pat|] == pat
  }

  /** `str::find`: where the first occurrence of `pat` starts. */
  function Find(s: string, pat: string): (r: Option<nat>)
    requires pat != ""
    ensures r.Some? ==> OccursAt(s, pat, r.value)
  {
    if |s| < |pat| then None
    else if s[..|pat|] == pat then Some(0)
    else
      var r := Find(s[1..], pat);
      if r.Some? then
        assert s[1..][r.value..r.value + |pat|] == s[r.value + 1..r.value + 1 + |pat|];
        Some(r.value + 1)
      else None
  }

  /** Nothing is found before the first occurrence, and every occurrence is found. */
  lemma {:induction false} FindFirst(s: string, pat: string, j: nat)
    requires pat != "" && OccursAt(s, pat, j)
    ensures Find(s, pat).Some? && Find(s, pat).value <= j
  {
    if s[..|pat|] != pat {
      assert s[1..][j - 1..j - 1 + |pat|] == s[j..j + |pat|];
      FindFirst(s[1..], pat, j - 1);
    }
  }

  /** The first occurrence is unique. */
  lemma {:induction false} FindIs(s: string, pat: string, i: nat)
    requires pat != "" && OccursAt(s, pat, i)
    requires forall j :: 0 <= j < i ==> !OccursAt(s, pat, j)
    ensures Find(s, pat) == Some(i)
  {
    FindFirst(s, pat, i);
    assert OccursAt(s, pat, Find(s, pat).value);
  }

  lemma {:induction false} FindNothing(s: string, pat: string)
    requires pat != ""
    ensures Find(s, pat).None? <==> forall j :: 0 <= j <= |s| ==> !OccursAt(s, pat, j)
  {
    if j :| 0 <= j <= |s| && OccursAt(s, pat, j) {
      FindFirst(s, pat, j);
    }
  }

  /** No proper prefix of `sep` is one of its suffixes, so two occurrences never
      overlap. True of one-character separators and of CRLF. */
  ghost predicate Unbordered(sep: string) {
    sep != "" && forall k :: 0 < k < |sep| ==> sep[k..] != sep[..|sep| - k]
  }

  lemma CrlfUnbordered()
    ensures Unbordered(CRLF)
  {
    assert CRLF[1..][0] != CRLF[..1][0];
  }

  /** The separator just appended is the first one found. */
  lemma {:induction false} FindAppend(a: string, sep: string, b: string)
    requires Unbordered(sep) && Find(a, sep).None?
    ensures Find(a + sep + b, sep) == Some(|a|)
  {
    var s := a + sep + b;
    FindNothing(a, sep);
    forall j | 0 <= j < |a| ensures !OccursAt(s, sep, j) {
      if j + |sep| <= |a| {
        assert s[j..j + |sep|] == a[j..j + |sep|];
        assert !OccursAt(a, sep, j);
      } else {
        var k := |a| - j;
        assert s[j..j + |sep|][k..] == sep[..|sep| - k];
      }
    }
    assert s[|a|..|a| + |sep|] == sep;
    FindIs(s, sep, |a|);
  }

  /** An occurrence inside a prefix is the first one of the whole. */
  lemma {:induction false} FindPrefix(a: string, pat: string, b: string)
    requires pat != "" && Find(a, pat).Some?
    ensures Find(a + b, pat) == Find(a, pat)
  {
    var i := Find(a, pat).value;
    var s := a + b;
    SliceOfPrefix(a, b, i, i + |pat|);
    FindFirst(s, pat, i);
    var k := Find(s, pat).value;
    SliceOfPrefix(a, b, k, k + |pat|);
    FindFirst(a, pat, k);
  }

  lemma SliceOfSlice(s: string, lo: nat, hi: nat, i: nat, j: nat)
    requires lo <= hi <= |s| && i <= j <= hi - lo
    ensures s[lo..hi][i..j] == s[lo + i..lo + j]
  {
    var a, b := s[lo..hi][i..j], s[lo + i..lo + j];
    assert forall k :: 0 <= k < j - i ==> a[k] == s[lo..hi][i + k] == s[lo + i + k] == b[k];
  }

  lemma SliceOfPrefix(a: string, b: string, i: nat, j: nat)
    requires i <= j <= |a|
    ensures (a + b)[i..j] == a[i..j]
  {
  }

  lemma SliceOfSuffix(s: string, off: nat, n: nat)
    requires off + n <= |s|
    ensures s[off..][..n] == s[off..off + n]
  {
  }

  /** A slice of text without `pat` is without `pat`. */
  lemma {:induction false} SliceClean(s: string, pat: string, lo: nat, hi: nat)
    requires pat != "" && lo <= hi <= |s|
    requires Find(s, pat).None? || hi <= Find(s, pat).value
    ensures Find(s[lo..hi], pat).None?
  {
    var t := s[lo..hi];
    if Find(t, pat).Some? {
      var i := Find(t, pat).value;
      SliceOfSlice(s, lo, hi, i, i + |pat|);
      FindFirst(s, pat, lo + i);
    }
  }

  /** `str::split`. */
  function Split(s: string, sep: string): (r: seq<string>)
    requires sep != ""
    ensures |r| >= 1
    decreases |s|
  {
    match Find(s, sep)
    case None => [s]
    case Some(i) => [s[..i]] + Split(s[i + |sep|..], sep)
  }

  /** No piece of a split holds the separator. */
  lemma {:induction false} SplitClean(s: string, sep: string)
    requires sep != ""
    ensures forall k :: 0 <= k < |Split(s, sep)| ==> Find(Split(s, sep)[k], sep).None?
    decreases |s|
  {
    if Find(s, sep).Some? {
      var i := Find(s, sep).value;
      SliceClean(s, sep, 0, i);
      SplitClean(s[i + |sep|..], sep);
    }
  }

  lemma {:induction false} SplitStep(s: string, sep: string, head: string, rest: string)
    requires sep != "" && s == head + sep + rest && Find(s, sep) == Some(|head|)
    ensures Split(s, sep) == [head] + Split(rest, sep)
  {
    assert s[..|head|] == head && s[|head| + |sep|..] == rest;
  }

  lemma Regroup(head: string, sep: string, rest: string, b: string)
    ensures (head + sep + rest) + sep + b == (head + sep + rest) + (sep + b)
    ensures (head + sep + rest) + sep + b == head + sep + (rest + sep + b)
  {
  }

  /** Splitting is a homomorphism at every separator. */
  lemma {:induction false} SplitAppend(a: string, sep: string, b: string)
    requires Unbordered(sep)
    ensures Split(a + sep + b, sep) == Split(a, sep) + Split(b, sep)
    decreases |a|
  {
    if Find(a, sep).None? {
      FindAppend(a, sep, b);
      SplitStep(a + sep + b, sep, a, b);
    } else {
      var i := Find(a, sep).value;
      var head, rest := a[..i], a[i + |sep|..];
      assert a == head + sep + rest;
      Regroup(head, sep, rest, b);
      FindPrefix(a, sep, sep + b);
      SplitStep(a + sep + b, sep, head, rest + sep + b);
      SplitStep(a, sep, head, rest);
      SplitAppend(rest, sep, b);
    }
  }

  /** `slice::join`. */
  function Join(ls: seq<string>, sep: string): string
    requires |ls| >= 1
  {
    if |ls| == 1 then ls[0] else ls[0] + sep + Join(ls[1..], sep)
  }

  lemma {:induction false} SplitJoin(ls: seq<string>, sep: string)
    requires |ls| >= 1 && Unbordered(sep)
    requires forall k :: 0 <= k < |ls| ==> Find(ls[k], sep).None?
    ensures Split(Join(ls, sep), sep) == ls
  {
    if |ls| == 1 {
      assert ls == [ls[0]];
    } else {
      SplitAppend(ls[0], sep, Join(ls[1..], sep));
      SplitJoin(ls[1..], sep);
      assert ls == [ls[0]] + ls[1..];
    }
  }

  lemma {:induction false} JoinSplit(s: string, sep: string)
    requires sep != ""
    ensures Join(Split(s, sep), sep) == s
    decreases |s|
  {
    match Find(s, sep)
    case None =>
    case Some(i) =>
      JoinSplit(s[i + |sep|..], sep);
      assert s == s[..i] + sep + s[i + |sep|..];
      assert Split(s, sep)[1..] == Split(s[i + |sep|..], sep);
  }

  /** `str::split_once`. */
  function SplitOnce(s: string, sep: string): (r: Option<(string, string)>)
    requires sep != ""
    ensures r.Some? ==> r.value.0 + sep + r.value.1 == s && Find(r.value.0, sep).None?
    ensures r.None? ==> Find(s, sep).None?
  {
    match Find(s, sep)
    case None => None
    case Some(i) =>
      SliceClean(s, sep, 0, i);
      assert s == s[..i] + sep + s[i + |sep|..];
      Some((s[..i], s[i + |sep|..]))
  }

  lemma {:induction false} SplitOnceAt(a: string, sep: string, b: string)
    requires Unbordered(sep) && Find(a, sep).None?
    ensures SplitOnce(a + sep + b, sep) == Some((a, b))
  {
    FindAppend(a, sep, b);
    var s := a + sep + b;
    assert s[..|a|] == a && s[|a| + |sep|..] == b;
  }

  /** For a one-character separator, not finding it is not containing it. */
  lemma {:induction false} FindChar(s: string, c: char)
    ensures Unbordered([c])
    ensures Find(s, [c]).None? <==> c !in s
  {
    FindNothing(s, [c]);
    if c in s {
      var j :| 0 <= j < |s| && s[j] == c;
      assert OccursAt(s, [c], j);
    } else {
      forall j | 0 <= j <= |s| ensures !OccursAt(s, [c], j) {
        assert j + 1 <= |s| ==> s[j..j + 1][0] != c;
      }
    }
  }

  // ------------------------------------------------------------------
  // White space
  // ------------------------------------------------------------------

  /** `char::is_whitespace` (Unicode White_Space). */
  predicate IsWhite(c: char) {
    var n := c as int;
    || 0x09 <= n <= 0x0D || n == 0x20 || n == 0x85 || n == 0xA0 || n == 0x1680
    || 0x2000 <= n <= 0x200A || n == 0x2028 || n == 0x2029 || n == 0x202F || n == 0x205F || n == 0x3000
  }

  function TrimStart(s: string): string {
    if s != "" && IsWhite(s[0]) then TrimStart(s[1..]) else s
  }

  function TrimEnd(s: string): string {
    if s != "" && IsWhite(s[|s| - 1]) then TrimEnd(s[..|s| - 1]) else s
  }

  /** Only white space goes, and all of it, in front. */
  lemma {:induction false} TrimStartFacts(s: string)
    ensures var r := TrimStart(s);
            && |r| <= |s| && r == s[|s| - |r|..] && (r != "" ==> !IsWhite(r[0]))
            && forall j :: 0 <= j < |s| - |r| ==> IsWhite(s[j])
  {
    hide IsWhite;
    if s != "" && IsWhite(s[0]) {
      var rest := s[1..];
      TrimStartFacts(rest);
      var r := TrimStart(rest);
      assert s[|s| - |r|..] == rest[|rest| - |r|..];
      forall j | 0 <= j < |s| - |r| ensures IsWhite(s[j]) {
        if j > 0 { assert s[j] == rest[j - 1]; }
      }
    }
  }

  /** And at the end. */
  lemma {:induction false} TrimEndFacts(s: string)
    ensures var r := TrimEnd(s);
            && |r| <= |s| && r == s[..|r|] && (r != "" ==> !IsWhite(r[|r| - 1]))
            && forall j :: |r| <= j < |s| ==> IsWhite(s[j])
  {
    hide IsWhite;
    if s != "" && IsWhite(s[|s| - 1]) { TrimEndFacts(s[..|s| - 1]); }
  }

  /** `str::trim`. */
  function Trim(s: string): string { TrimEnd(TrimStart(s)) }

  predicate Trimmed(s: string) {
    s == "" || (!IsWhite(s[0]) && !IsWhite(s[|s| - 1]))
  }

  /** Trimming yields trimmed text and leaves trimmed text alone. */
  lemma TrimIsTrimmed(s: string)
    ensures Trimmed(Trim(s))
    ensures Trimmed(s) ==> Trim(s) == s
  {
    hide IsWhite;
    var a := TrimStart(s);
    var b := TrimEnd(a);
    TrimStartFacts(s);
    TrimEndFacts(a);
    if b != "" { assert b[0] == a[0]; }
  }

  predicate AllWhite(s: string) { forall j :: 0 <= j < |s| ==> IsWhite(s[j]) }

  lemma OneBlank() ensures AllWhite(" ") {}

  /** Trimming only takes white space off both ends. */
  lemma {:induction false} TrimParts(v: string) returns (w1: string, w2: string)
    ensures v == w1 + Trim(v) + w2 && AllWhite(w1) && AllWhite(w2)
  {
    hide IsWhite, TrimStart, TrimEnd;
    var a := TrimStart(v);
    var t := TrimEnd(a);
    TrimStartFacts(v);
    TrimEndFacts(a);
    w1, w2 := v[..|v| - |a|], a[|t|..];
    Cut(v, |v| - |a|);
    Cut(a, |t|);
    ThreeParts(w1, t, w2);
  }

  lemma Cut(s: string, i: nat)
    requires i <= |s|
    ensures s == s[..i] + s[i..]
  {
  }

  lemma ThreeParts(a: string, b: string, c: string)
    ensures a + (b + c) == a + b + c
  {
  }

  /** Padding with one blank in front does not change what trimming yields. */
  lemma TrimPadded(s: string)
    ensures Trim(" " + s) == Trim(s)
  {
    assert (" " + s)[1..] == s;
  }

  /** What trimming keeps is a slice, so it brings in no new separator. */
  lemma {:induction false} TrimClean(s: string, pat: string)
    requires pat != "" && Find(s, pat).None?
    ensures Find(Trim(s), pat).None?
  {
    hide Find, TrimStart, TrimEnd, IsWhite;
    var a := TrimStart(s);
    TrimStartFacts(s);
    TrimEndFacts(a);
    var off := |s| - |a|;
    SliceOfSuffix(s, off, |TrimEnd(a)|);
    SliceClean(s, pat, off, off + |Trim(s)|);
  }

  /** The longest prefix without white space. */
  function TakeWord(s: string): (r: string)
    ensures |r| <= |s|
  {
    if s == "" || IsWhite(s[0]) then "" else [s[0]] + TakeWord(s[1..])
  }

  lemma {:induction false} TakeWordFacts(s: string)
    ensures var r := TakeWord(s);
            && r == s[..|r|] && (forall j :: 0 <= j < |r| ==> !IsWhite(r[j]))
            && (|r| < |s| ==> IsWhite(s[|r|]))
  {
    hide IsWhite;
    if s != "" && !IsWhite(s[0]) { TakeWordFacts(s[1..]); }
  }

  /** `split_whitespace().next()` and what is left after it. */
  function NextWord(s: string): Option<(string, string)> {
    var t := TrimStart(s);
    if t == "" then None
    else
      var w := TakeWord(t);
      Some((w, t[|w|..]))
  }

  lemma NextWordFacts(s: string)
    requires NextWord(s).Some?
    ensures var w := NextWord(s).value.0; w != "" && forall j :: 0 <= j < |w| ==> !IsWhite(w[j])
  {
    hide IsWhite;
    TrimStartFacts(s);
    TakeWordFacts(TrimStart(s));
  }

  lemma {:induction false} TrimStartIs(pad: string, s: string)
    requires forall j :: 0 <= j < |pad| ==> IsWhite(pad[j])
    requires s != "" ==> !IsWhite(s[0])
    ensures TrimStart(pad + s) == s
  {
    if pad == "" {
      assert pad + s == s;
    } else {
      assert (pad + s)[1..] == pad[1..] + s;
      TrimStartIs(pad[1..], s);
    }
  }

  lemma {:induction false} TakeWordIs(w: string, rest: string)
    requires forall j :: 0 <= j < |w| ==> !IsWhite(w[j])
    requires rest != "" ==> IsWhite(rest[0])
    ensures TakeWord(w + rest) == w
  {
    if w == "" {
      assert w + rest == rest;
    } else {
      assert (w + rest)[1..] == w[1..] + rest;
      TakeWordIs(w[1..], rest);
    }
  }

  /** A word followed by nothing or by a blank is read back as itself. */
  lemma {:induction false} NextWordIs(pad: string, w: string, rest: string)
    requires w != "" && forall j :: 0 <= j < |w| ==> !IsWhite(w[j])
    requires forall j :: 0 <= j < |pad| ==> IsWhite(pad[j])
    requires rest != "" ==> IsWhite(rest[0])
    ensures NextWord(pad + w + rest) == Some((w, rest))
  {
    assert pad + w + rest == pad + (w + rest);
    TrimStartIs(pad, w + rest);
    TakeWordIs(w, rest);
    assert (w + rest)[|w|..] == rest;
  }

  // ------------------------------------------------------------------
  // Letters and numbers
  // ------------------------------------------------------------------

  function LowerChar(c: char): char {
    if 'A' <= c <= 'Z' then (c as int + 32) as char else c
  }

  /** `to_lowercase`, on the ASCII letters every header name is made of. */
  function Lower(s: string): (r: string)
    ensures |r| == |s|
  {
    if s == "" then "" else [LowerChar(s[0])] + Lower(s[1..])
  }

  lemma {:induction false} LowerFacts(s: string)
    ensures forall i :: 0 <= i < |s| ==> Lower(s)[i] == LowerChar(s[i])
  {
    hide LowerChar;
    if s != "" { LowerFacts(s[1..]); }
  }

  lemma LowerIs(s: string, low: string)
    requires |s| == |low| && forall i :: 0 <= i < |s| ==> LowerChar(s[i]) == low[i]
    ensures Lower(s) == low
  {
    hide LowerChar, Lower;
    LowerFacts(s);
  }

  function UpperChar(c: char): char { if 'a' <= c <= 'z' then c - 'a' + 'A' else c }

  /** `to_uppercase`, on ASCII letters. */
  function Upper(s: string): (r: string)
    ensures '\n' in r <==> '\n' in s
    ensures '\r' in r <==> '\r' in s
    ensures '=' in r <==> '=' in s
  {
    if s == "" then "" else [UpperChar(s[0])] + Upper(s[1..])
  }

  predicate IsDigit(c: char) { '0' <= c <= '9' }

  /** `{}` of an unsigned number. */
  function Print(n: nat): (s: string)
    ensures s != "" && forall i :: 0 <= i < |s| ==> IsDigit(s[i])
    decreases n
  {
    (if n < 10 then "" else Print(n / 10)) + [('0' as int + n % 10) as char]
  }

  function DecimalValue(s: string): nat
    requires forall i :: 0 <= i < |s| ==> IsDigit(s[i])
  {
    if s == "" then 0
    else
      assert IsDigit(s[|s| - 1]);
      10 * DecimalValue(s[..|s| - 1]) + (s[|s| - 1] as int - '0' as int)
  }

  /** `str::parse::<u32>`: an optional `+`, then at least one digit, no overflow. */
  function ParseU32(s: string): (r: Option<nat>)
    ensures r.Some? ==> r.value < U32
  {
    var d := if s != "" && s[0] == '+' then s[1..] else s;
    if d != "" && (forall i :: 0 <= i < |d| ==> IsDigit(d[i])) && DecimalValue(d) < U32
    then Some(DecimalValue(d)) else None
  }

  lemma {:induction false} ValueSnoc(s: string, c: char)
    requires (forall i :: 0 <= i < |s| ==> IsDigit(s[i])) && IsDigit(c)
    ensures (forall i :: 0 <= i < |s + [c]| ==> IsDigit((s + [c])[i]))
    ensures DecimalValue(s + [c]) == 10 * DecimalValue(s) + (c as int - '0' as int)
  {
    assert (s + [c])[..|s|] == s;
  }

  lemma {:induction false} PrintValue(n: nat)
    ensures DecimalValue(Print(n)) == n
    decreases n
  {
    hide DecimalValue;
    var c := ('0' as int + n % 10) as char;
    if n < 10 {
      EmptyValue();
      ValueSnoc("", c);
    } else {
      PrintValue(n / 10);
      ValueSnoc(Print(n / 10), c);
    }
  }

  lemma EmptyValue() ensures DecimalValue("") == 0 {}

  /** Numbers survive printing and parsing. */
  lemma ParsePrint(n: nat)
    requires n < U32
    ensures ParseU32(Print(n)) == Some(n)
  {
    PrintValue(n);
    assert IsDigit(Print(n)[0]);
  }

  /** One plus sign in front does not matter. */
  lemma PlusIgnored(n: nat)
    requires n < U32
    ensures ParseU32("+" + Print(n)) == Some(n)
  {
    hide Print;
    PrintValue(n);
    assert ("+" + Print(n))[1..] == Print(n);
  }

  lemma PrintInjective(m: nat, n: nat)
    requires Print(m) == Print(n)
    ensures m == n
  {
    PrintValue(m);
    PrintValue(n);
  }
}
