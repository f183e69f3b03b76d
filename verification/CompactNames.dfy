/** Compact header names (section 7.3.3 of RFC 3261): a request reads the same under the long
    and the short form of its header names. */
module CompactNames {
  import opened Prelude
  import opened Text
  import opened SipBuilder

  /** The long form of a lower-case header name. */
  function FullName(low: string): string {
    if low == "v" then "via"
    else if low == "f" then "from"
    else if low == "t" then "to"
    else if low == "i" then "call-id"
    else low
  }

  /** Lines with the same text after the colon and the same name, in whatever case and form. */
  ghost predicate Alike(a: string, b: string) {
    && AfterColon(a) == AfterColon(b) && (NameOfLine(a).Some? <==> NameOfLine(b).Some?)
    && (NameOfLine(a).Some? ==> FullName(NameOfLine(a).value) == FullName(NameOfLine(b).value))
  }

  lemma FieldOfLong(low: string)
    ensures FieldNamed(low) == FieldNamed(FullName(low))
  {
  }

  lemma SameField(a: string, b: string)
    requires Alike(a, b)
    ensures FieldOf(a) == FieldOf(b) && ValueOf(a) == ValueOf(b)
  {
    hide FieldNamed, FullName, Lower, Trim, SplitOnce;
    if NameOfLine(a).Some? {
      FieldOfLong(NameOfLine(a).value);
      FieldOfLong(NameOfLine(b).value);
    }
  }

  ghost predicate AllAlike(a: seq<string>, b: seq<string>) {
    |a| == |b| && forall k :: 0 <= k < |a| ==> Alike(a[k], b[k])
  }

  /** What an optional line says. */
  ghost predicate SameLine(a: Option<string>, b: Option<string>) {
    (a.Some? <==> b.Some?) && (a.Some? ==> Alike(a.value, b.value))
  }

  lemma {:induction false} SameLines(a: seq<string>, b: seq<string>, f: Field)
    requires AllAlike(a, b)
    ensures SameLine(First(a, f), First(b, f)) && SameLine(Last(a, f), Last(b, f)) && All(a, f) == All(b, f)
  {
    hide Alike, FieldOf, ValueOf;
    if a != [] {
      var n := |a| - 1;
      SameLines(a[..n], b[..n], f);
      SameField(a[n], b[n]);
    }
  }

  /** The identity and the branch of a request do not depend on the form of its names. */
  lemma ReadsAlike(verb: string, start: string, a: seq<string>, b: seq<string>)
    requires AllAlike(a, b)
    ensures IdentityOf(verb, start, a) == IdentityOf(verb, start, b) && TopViaBranchOf(a) == TopViaBranchOf(b)
  {
    hide AllAlike, FieldOf, First, Last, All, RequestUri, CseqNumber, ValueOf, AfterColon, BranchOf, NameOfLine,
      FullName;
    SameLines(a, b, Via);
    SameLines(a, b, From);
    SameLines(a, b, To);
    SameLines(a, b, CallId);
    SameLines(a, b, CSeq);
    SameLines(a, b, Route);
    SameValues(First(a, Via), First(b, Via));
    SameValues(Last(a, From), Last(b, From));
    SameValues(Last(a, To), Last(b, To));
    SameValues(Last(a, CallId), Last(b, CallId));
    SameValues(Last(a, CSeq), Last(b, CSeq));
  }

  lemma SameValues(a: Option<string>, b: Option<string>)
    requires SameLine(a, b)
    ensures a.Some? ==> b.Some? && ValueOf(a.value) == ValueOf(b.value) && AfterColon(a.value) == AfterColon(b.value)
  {
    hide ValueOf, AfterColon, FieldOf, NameOfLine;
    if a.Some? { SameField(a.value, b.value); }
  }
}
