/** Header edits on a raw SIP message and outbound topology hiding (`topology.rs`). */
module TopologyHiding {
  import opened Prelude
  import opened Text
  import opened Topology

  // ------------------------------------------------------------------
  // Header names
  // ------------------------------------------------------------------

  /** Compact header names stand for their long form. */
  function LongForm(name: string): string {
    if |name| != 1 then name
    else match name[0]
      case 'v' => "via"
      case 'f' => "from"
      case 't' => "to"
      case 'm' => "contact"
      case 'i' => "call-id"
      case 'e' => "content-encoding"
      case 'l' => "content-length"
      case 'c' => "content-type"
      case 's' => "subject"
      case 'k' => "supported"
      case _ => name
  }

  /** The name before the colon, lower-cased; a line without a colon has none. */
  function WrittenName(h: string): Option<string> {
    match Find(h, ":")
    case None => None
    case Some(i) => Some(Lower(Trim(h[..i])))
  }

  function Value(h: string): string {
    match Find(h, ":")
    case None => ""
    case Some(i) => Trim(h[i + 1..])
  }

  predicate Named(h: string, name: string) {
    var n := WrittenName(h);
    n.Some? && (n.value == Lower(name) || LongForm(n.value) == Lower(name))
  }

  /** The name a line goes by, long form. */
  function NameOf(h: string): Option<string> {
    var n := WrittenName(h);
    if n.Some? then Some(LongForm(n.value)) else None
  }

  // ------------------------------------------------------------------
  // Edits
  // ------------------------------------------------------------------

  /** `remove_header`: every line of that name goes, the others stay in order. */
  function Without(hs: seq<string>, name: string): seq<string> {
    if hs == [] then []
    else (if Named(hs[0], name) then [] else [hs[0]]) + Without(hs[1..], name)
  }

  /** The value of a Max-Forwards line that can be read as a number. */
  function HopsOf(h: string): Option<nat> {
    if WrittenName(h) == Some("max-forwards") then ParseU32(Value(h)) else None
  }

  /** What a message says of its remaining hops: its first readable Max-Forwards. */
  function MaxForwards(hs: seq<string>): Option<nat> {
    if hs == [] then None
    else if HopsOf(hs[0]).Some? then HopsOf(hs[0])
    else MaxForwards(hs[1..])
  }

  function HopsLine(n: nat): string { "Max-Forwards: " + Print(n) }

  /** `decrement_max_forwards`: the first readable one falls by one, a zero is refused and
      left alone, and a message without one is given 70. */
  function Decremented(hs: seq<string>): (seq<string>, bool) {
    if hs == [] then ([HopsLine(70)], true)
    else match HopsOf(hs[0])
      case Some(n) => if n == 0 then (hs, false) else ([HopsLine(n - 1)] + hs[1..], true)
      case None => var (rest, ok) := Decremented(hs[1..]); ([hs[0]] + rest, ok)
  }

  // ------------------------------------------------------------------
  // Outbound hiding
  // ------------------------------------------------------------------

  datatype SbcIdentity = SbcIdentity(publicIp: string, sipDomain: string, sipPort: nat, tls: bool)
  {
    function SipUri(): string {
      if sipPort == 5060 && !tls then "sip:" + sipDomain
      else (if tls then "sips:" else "sip:") + sipDomain + ":" + Print(sipPort)
    }

    function ContactUri(): string {
      if tls then "sips:sbc@" + publicIp + ":" + Print(sipPort) + ";transport=tls"
      else "sip:sbc@" + publicIp + ":" + Print(sipPort)
    }

    function ViaValue(transport: string, branch: string): string {
      "SIP/2.0/" + Upper(transport) + " " + publicIp + ":" + Print(sipPort) + ";branch=" + branch
    }

    function RecordRoute(): string {
      "<" + SipUri() + (if tls then ";transport=tls;lr>" else ";lr>")
    }
  }

  function ViaLine(id: SbcIdentity, transport: string, branch: string): string {
    "Via: " + id.ViaValue(transport, branch)
  }

  function ContactLine(id: SbcIdentity): string { "Contact: <" + id.ContactUri() + ">" }

  function RecordRouteLine(id: SbcIdentity): string { "Record-Route: " + id.RecordRoute() }

  predicate IsRequest(m: Message) { !("SIP/2.0" <= m.start) }

  /** The edits of `apply_topology_hiding_outbound`, in its order. */
  function Outbound(m: Message, id: SbcIdentity, transport: string, branch: string): Message {
    if !IsRequest(m) then m
    else
      var h1 := Decremented(m.headers).0;
      var h2 := [ViaLine(id, transport, branch)] + Without(h1, "via");
      var h3 := Without(Without(h2, "contact"), "m") + [ContactLine(id)];
      var h4 := [RecordRouteLine(id)] + Without(h3, "record-route");
      m.(headers := Without(h4, "route"))
  }

  // ------------------------------------------------------------------
  // What the edits do
  // ------------------------------------------------------------------

  /** The lines under none of the given names, in order. */
  function Others(hs: seq<string>, names: set<string>): seq<string> {
    if hs == [] then []
    else (if NameOf(hs[0]).Some? && NameOf(hs[0]).value in names then [] else [hs[0]]) + Others(hs[1..], names)
  }

  function Count(hs: seq<string>, name: string): nat {
    if hs == [] then 0 else (if NameOf(hs[0]) == Some(name) then 1 else 0) + Count(hs[1..], name)
  }

  const HIDDEN := {"via", "contact", "record-route", "route"}

  /** A name that is lower-case and no abbreviation. */
  predicate IsLong(name: string) { Lower(name) == name && |name| > 1 }

  lemma NamedIs(h: string, name: string)
    requires IsLong(name)
    ensures Named(h, name) <==> NameOf(h) == Some(name)
  {
    hide Lower, Find, Trim;
  }

  lemma {:induction false} WithoutIsOthers(hs: seq<string>, name: string)
    requires IsLong(name)
    ensures Without(hs, name) == Others(hs, {name})
  {
    hide Named, NameOf, LongForm;
    if hs != [] {
      NamedIs(hs[0], name);
      WithoutIsOthers(hs[1..], name);
    }
  }

  lemma {:induction false} OthersTwice(hs: seq<string>, a: set<string>, b: set<string>)
    ensures Others(Others(hs, a), b) == Others(hs, a + b)
  {
    hide NameOf;
    if hs != [] {
      OthersTwice(hs[1..], a, b);
      var rest := Others(hs[1..], a);
      assert ([hs[0]] + rest)[1..] == rest;
      assert [] + rest == rest;
    }
  }

  lemma LinesRegroup(a: seq<string>, b: seq<string>, c: seq<string>)
    ensures a + (b + c) == a + b + c
  {
  }

  lemma {:induction false} OthersAppend(x: seq<string>, y: seq<string>, names: set<string>)
    ensures Others(x + y, names) == Others(x, names) + Others(y, names)
  {
    hide NameOf;
    if x == [] {
      assert x + y == y;
    } else {
      assert (x + y)[1..] == x[1..] + y;
      OthersAppend(x[1..], y, names);
      LinesRegroup(if NameOf(x[0]).Some?
                   && NameOf(x[0]).value in names then [] else [x[0]], Others(x[1..], names), Others(y, names));
    }
  }

  lemma {:induction false} CountAppend(x: seq<string>, y: seq<string>, name: string)
    ensures Count(x + y, name) == Count(x, name) + Count(y, name)
  {
    hide NameOf;
    if x == [] {
      assert x + y == y;
    } else {
      assert (x + y)[1..] == x[1..] + y;
      CountAppend(x[1..], y, name);
    }
  }

  lemma {:induction false} CountOthers(hs: seq<string>, names: set<string>, name: string)
    requires name in names
    ensures Count(Others(hs, names), name) == 0
  {
    hide NameOf;
    if hs != [] {
      CountOthers(hs[1..], names, name);
      var rest := Others(hs[1..], names);
      assert ([hs[0]] + rest)[1..] == rest;
      assert [] + rest == rest;
    }
  }

  /** `Without(…, "m")` after `Without(…, "contact")` finds nothing left to drop. */
  lemma {:induction false} NoCompactContact(hs: seq<string>)
    ensures Without(Others(hs, {"contact"}), "m") == Others(hs, {"contact"})
  {
    hide Named, NameOf;
    if hs != [] {
      NoCompactContact(hs[1..]);
      var h, rest := hs[0], Others(hs[1..], {"contact"});
      assert ([h] + rest)[1..] == rest;
      assert [] + rest == rest;
      if Named(h, "m") { MeansContact(h); }
    }
  }

  lemma MeansContact(h: string)
    requires Named(h, "m")
    ensures NameOf(h) == Some("contact")
  {
    hide WrittenName;
    LowerIs("m", "m");
    var n := WrittenName(h).value;
    assert |n| == 1 ==> n == [n[0]];
  }

  // --- the SBC's own lines ---

  /** A header name as it is printed, and as it is compared. */
  predicate Prints(name: string, low: string) { ':' !in name && Trimmed(name) && Lower(name) == low && |low| > 1 }

  lemma PrintedNames()
    ensures Prints("Via", "via") && Prints("Contact", "contact")
  {
    hide Lower;
    LowerIs("Via", "via");
    LowerIs("Contact", "contact");
  }

  lemma PrintedLongNames()
    ensures Prints("Record-Route", "record-route") && Prints("Max-Forwards", "max-forwards")
  {
    hide Lower;
    LowerIs("Record-Route", "record-route");
    LowerIs("Max-Forwards", "max-forwards");
  }

  lemma HeaderLineReads(name: string, low: string, rest: string)
    requires Prints(name, low)
    ensures WrittenName(name + ":" + rest) == NameOf(name + ":" + rest) == Some(low)
    ensures Value(name + ":" + rest) == Trim(rest)
  {
    hide Find, Trim, Lower;
    var h := name + ":" + rest;
    FindChar(name, ':');
    FindAppend(name, ":", rest);
    assert h[..|name|] == name && h[|name| + 1..] == rest;
    TrimIsTrimmed(name);
  }

  lemma ViaNamed(x: string)
    ensures NameOf("Via: " + x) == Some("via")
  {
    hide NameOf, Prints;
    PrintedNames();
    assert "Via: " + x == "Via" + ":" + (" " + x);
    HeaderLineReads("Via", "via", " " + x);
  }

  lemma ContactNamed(x: string)
    ensures NameOf("Contact: <" + x + ">") == Some("contact")
  {
    hide NameOf, Prints;
    PrintedNames();
    assert "Contact: <" + x + ">" == "Contact" + ":" + (" <" + x + ">");
    HeaderLineReads("Contact", "contact", " <" + x + ">");
  }

  lemma RecordRouteNamed(x: string)
    ensures NameOf("Record-Route: " + x) == Some("record-route")
  {
    hide NameOf, Prints;
    PrintedLongNames();
    assert "Record-Route: " + x == "Record-Route" + ":" + (" " + x);
    HeaderLineReads("Record-Route", "record-route", " " + x);
  }

  lemma HopsNamed(n: nat)
    requires n < U32
    ensures NameOf(HopsLine(n)) == Some("max-forwards") && HopsOf(HopsLine(n)) == Some(n)
  {
    hide NameOf, Prints, WrittenName, Value, Trim, Print, ParseU32;
    PrintedLongNames();
    assert "Max-Forwards: " == "Max-Forwards" + ":" + " ";
    assert HopsLine(n) == "Max-Forwards" + ":" + (" " + Print(n));
    HeaderLineReads("Max-Forwards", "max-forwards", " " + Print(n));
    TrimPadded(Print(n));
    DigitsTrimmed(Print(n));
    ParsePrint(n);
  }

  lemma DigitsTrimmed(s: string)
    requires forall i :: 0 <= i < |s| ==> IsDigit(s[i])
    ensures Trim(s) == s
  {
    TrimIsTrimmed(s);
  }

  lemma LongNames()
    ensures IsLong("via") && IsLong("contact") && IsLong("record-route") && IsLong("route")
  {
    hide Lower;
    LowerIs("via", "via");
    LowerIs("contact", "contact");
    LowerIs("record-route", "record-route");
    LowerIs("route", "route");
  }

  // --- Max-Forwards ---

  lemma {:induction false} DecrementKeepsOthers(hs: seq<string>, names: set<string>)
    requires "max-forwards" in names
    ensures Others(Decremented(hs).0, names) == Others(hs, names)
  {
    hide NameOf, HopsLine, HopsOf;
    if hs == [] {
      HopsNamed(70);
      assert [HopsLine(70)][1..] == [];
    } else {
      match HopsOf(hs[0])
      case Some(n) =>
        HopsAreNamed(hs[0]);
        if n > 0 {
          HopsNamed(n - 1);
          assert ([HopsLine(n - 1)] + hs[1..])[1..] == hs[1..];
        }
      case None =>
        DecrementKeepsOthers(hs[1..], names);
        assert ([hs[0]] + Decremented(hs[1..]).0)[1..] == Decremented(hs[1..]).0;
    }
  }

  lemma HopsAreNamed(h: string)
    requires HopsOf(h).Some?
    ensures NameOf(h) == Some("max-forwards") && HopsOf(h).value < U32
  {
    hide WrittenName, Value;
  }

  /** A positive Max-Forwards falls by exactly one; zero is refused and stays; none becomes 70. */
  lemma {:induction false} DecrementLowers(hs: seq<string>)
    ensures Decremented(hs).1 <==> MaxForwards(hs) != Some(0)
    ensures MaxForwards(Decremented(hs).0) ==
              match MaxForwards(hs) { case Some(n) => Some(SatSub(n, 1)) case None => Some(70) }
    ensures MaxForwards(hs) == Some(0) ==> Decremented(hs).0 == hs
  {
    hide HopsOf, HopsLine, NameOf;
    if hs == [] {
      HopsNamed(70);
    } else {
      match HopsOf(hs[0])
      case Some(n) =>
        HopsAreNamed(hs[0]);
        if n > 0 { HopsNamed(n - 1); }
      case None =>
        DecrementLowers(hs[1..]);
        assert ([hs[0]] + Decremented(hs[1..]).0)[1..] == Decremented(hs[1..]).0;
    }
  }

  lemma {:induction false} MaxForwardsAppend(x: seq<string>, y: seq<string>)
    ensures MaxForwards(x + y) == if MaxForwards(x).Some? then MaxForwards(x) else MaxForwards(y)
  {
    hide HopsOf;
    if x == [] {
      assert x + y == y;
    } else {
      assert (x + y)[1..] == x[1..] + y;
      MaxForwardsAppend(x[1..], y);
    }
  }

  lemma {:induction false} OthersKeepHops(hs: seq<string>, names: set<string>)
    requires "max-forwards" !in names
    ensures MaxForwards(Others(hs, names)) == MaxForwards(hs)
  {
    hide HopsOf, NameOf;
    if hs != [] {
      OthersKeepHops(hs[1..], names);
      var rest := Others(hs[1..], names);
      assert ([hs[0]] + rest)[1..] == rest;
      assert [] + rest == rest;
      if HopsOf(hs[0]).Some? { HopsAreNamed(hs[0]); }
    }
  }

  // ------------------------------------------------------------------
  // What hiding leaves
  // ------------------------------------------------------------------

  lemma OwnLines(id: SbcIdentity, transport: string, branch: string)
    ensures NameOf(ViaLine(id, transport, branch)) == Some("via") && NameOf(ContactLine(id)) == Some("contact")
    ensures NameOf(RecordRouteLine(id)) == Some("record-route")
  {
    ViaNamed(id.ViaValue(transport, branch));
    ContactNamed(id.ContactUri());
    RecordRouteNamed(id.RecordRoute());
  }

  lemma KeepOwn(h: string, names: set<string>)
    requires NameOf(h).Some? && NameOf(h).value !in names
    ensures Others([h], names) == [h]
  {
    hide NameOf;
    assert [h][1..] == [];
  }

  lemma DropOwn(h: string, names: set<string>)
    requires NameOf(h).Some? && NameOf(h).value in names
    ensures Others([h], names) == []
  {
    hide NameOf;
    assert [h][1..] == [];
  }

  /** The header block after hiding: the SBC's Record-Route and Via, every line that is
      not replaced (with Max-Forwards lowered), the SBC's Contact. */
  lemma OutboundHeaders(m: Message, id: SbcIdentity, transport: string, branch: string)
    requires IsRequest(m)
    ensures Outbound(m, id, transport, branch).headers ==
              [RecordRouteLine(id), ViaLine(id, transport, branch)]
              + Others(Decremented(m.headers).0, HIDDEN) + [ContactLine(id)]
  {
    hide Others, Without, Decremented, NameOf, Named, ViaLine, ContactLine, RecordRouteLine, IsLong;
    var v, c, r := ViaLine(id, transport, branch), ContactLine(id), RecordRouteLine(id);
    OwnLines(id, transport, branch);
    LongNames();
    var h1 := Decremented(m.headers).0;
    WithoutIsOthers(h1, "via");
    var k1 := Others(h1, {"via"});
    var h2 := [v] + k1;
    WithoutIsOthers(h2, "contact");
    NoCompactContact(h2);
    OthersAppend([v], k1, {"contact"});
    KeepOwn(v, {"contact"});
    var k2 := Others(k1, {"contact"});
    var h3 := [v] + k2 + [c];
    WithoutIsOthers(h3, "record-route");
    OthersAppend([v] + k2, [c], {"record-route"});
    OthersAppend([v], k2, {"record-route"});
    KeepOwn(v, {"record-route"});
    KeepOwn(c, {"record-route"});
    var k3 := Others(k2, {"record-route"});
    var h4 := [r] + ([v] + k3 + [c]);
    WithoutIsOthers(h4, "route");
    OthersAppend([r], [v] + k3 + [c], {"route"});
    OthersAppend([v] + k3, [c], {"route"});
    OthersAppend([v], k3, {"route"});
    KeepOwn(r, {"route"});
    KeepOwn(v, {"route"});
    KeepOwn(c, {"route"});
    OthersFourTimes(h1);
    assert [r] + ([v] + Others(k3, {"route"}) + [c]) == [r, v] + Others(k3, {"route"}) + [c];
  }

  lemma OthersFourTimes(hs: seq<string>)
    ensures Others(Others(Others(Others(hs, {"via"}), {"contact"}), {"record-route"}), {"route"}) == Others(hs, HIDDEN)
  {
    hide Others;
    OthersTwice(hs, {"via"}, {"contact"});
    OthersTwice(hs, {"via"} + {"contact"}, {"record-route"});
    OthersTwice(hs, {"via"} + {"contact"} + {"record-route"}, {"route"});
    assert {"via"} + {"contact"} + {"record-route"} + {"route"} == HIDDEN;
  }

  /** Neither the identity nor the transport or branch holds a line feed. */
  predicate Clean(id: SbcIdentity, transport: string, branch: string) {
    '\n' !in id.publicIp && '\n' !in id.sipDomain && '\n' !in transport && '\n' !in branch
  }

  function OutboundText(raw: string, id: SbcIdentity, transport: string, branch: string): string {
    Render(Outbound(Parse(raw), id, transport, branch))
  }

  lemma {:induction false} OthersWellFormed(hs: seq<string>, names: set<string>)
    requires AllHeaderLines(hs)
    ensures AllHeaderLines(Others(hs, names))
  {
    hide NameOf, HeaderLine;
    if hs != [] { OthersWellFormed(hs[1..], names); }
  }

  lemma {:induction false} DecrementedWellFormed(hs: seq<string>)
    requires AllHeaderLines(hs)
    ensures AllHeaderLines(Decremented(hs).0)
  {
    hide HopsOf;
    if hs != [] && HopsOf(hs[0]).None? { DecrementedWellFormed(hs[1..]); }
  }

  predicate OneLine(s: string) { '\n' !in s }

  lemma Cat(a: string, b: string)
    requires OneLine(a) && OneLine(b)
    ensures OneLine(a + b)
  {
  }

  lemma SipUriOneLine(id: SbcIdentity)
    requires OneLine(id.sipDomain)
    ensures OneLine(id.SipUri())
  {
    hide Print, OneLine;
    OneLineParts(id.sipPort);
    var scheme := if id.tls then "sips:" else "sip:";
    Cat(scheme, id.sipDomain);
    Cat(scheme + id.sipDomain, ":");
    Cat(scheme + id.sipDomain + ":", Print(id.sipPort));
  }

  lemma OneLineParts(port: nat)
    ensures OneLine(Print(port)) && OneLine(":") && OneLine("sip:") && OneLine("sips:") && OneLine(" ") && OneLine("<")
            && OneLine(">")
  {
    hide Print;
  }

  lemma RecordRouteOneLine(id: SbcIdentity)
    requires OneLine(id.sipDomain)
    ensures HeaderLine(RecordRouteLine(id))
  {
    SipUriOneLine(id);
    var tail := if id.tls then ";transport=tls;lr>" else ";lr>";
    assert OneLine(tail) && OneLine("<") && OneLine("Record-Route: ");
    var uri := id.SipUri();
    Framed("<", uri, tail);
    Framed("Record-Route: ", id.RecordRoute(), "");
  }

  lemma Framed(a: string, x: string, b: string)
    requires OneLine(a) && OneLine(x) && OneLine(b)
    ensures OneLine(a + x + b) && OneLine(a + x)
    ensures a != "" && !Blank(a[0]) ==> HeaderLine(a + x + b) && HeaderLine(a + x)
  {
  }

  lemma ContactOneLine(id: SbcIdentity)
    requires OneLine(id.publicIp)
    ensures HeaderLine(ContactLine(id))
  {
    hide Print;
    var scheme := if id.tls then "sips:sbc@" else "sip:sbc@";
    var tail := if id.tls then ";transport=tls" else "";
    assert OneLine(scheme) && OneLine(tail) && OneLine("Contact: <");
    OneLineParts(id.sipPort);
    Framed(scheme, id.publicIp, ":");
    Framed(scheme + id.publicIp + ":", Print(id.sipPort), tail);
    Framed("Contact: <", id.ContactUri(), ">");
  }

  lemma ViaOneLine(id: SbcIdentity, transport: string, branch: string)
    requires Clean(id, transport, branch)
    ensures HeaderLine(ViaLine(id, transport, branch))
  {
    hide Print, Upper;
    OneLineParts(id.sipPort);
    assert OneLine("SIP/2.0/") && OneLine(";branch=") && OneLine("Via: ");
    Framed("SIP/2.0/", Upper(transport), " ");
    Framed("SIP/2.0/" + Upper(transport) + " ", id.publicIp, ":");
    Framed("SIP/2.0/" + Upper(transport) + " " + id.publicIp + ":", Print(id.sipPort), ";branch=");
    Framed("SIP/2.0/" + Upper(transport) + " " + id.publicIp + ":" + Print(id.sipPort) + ";branch=", branch, "");
    Framed("Via: ", id.ViaValue(transport, branch), "");
  }

  lemma HiddenWellFormed(r: string, v: string, kept: seq<string>, c: string)
    requires HeaderLine(r) && HeaderLine(v) && HeaderLine(c) && AllHeaderLines(kept)
    ensures AllHeaderLines([r, v] + kept + [c])
  {
    hide HeaderLine;
  }

  lemma OutboundWellFormed(m: Message, id: SbcIdentity, transport: string, branch: string)
    requires WellFormed(m) && Clean(id, transport, branch)
    ensures WellFormed(Outbound(m, id, transport, branch))
  {
    hide HeaderLine, Decremented, Others, ViaLine, ContactLine, RecordRouteLine, Without, IsRequest;
    if IsRequest(m) {
      OutboundHeaders(m, id, transport, branch);
      RecordRouteOneLine(id);
      ContactOneLine(id);
      ViaOneLine(id, transport, branch);
      DecrementedWellFormed(m.headers);
      OthersWellFormed(Decremented(m.headers).0, HIDDEN);
      HiddenWellFormed(RecordRouteLine(id), ViaLine(id, transport, branch), Others(Decremented(m.headers).0, HIDDEN),
                       ContactLine(id));
    }
  }

  lemma CountOne(h: string, name: string)
    ensures Count([h], name) == if NameOf(h) == Some(name) then 1 else 0
  {
    hide NameOf;
    assert [h][1..] == [];
  }

  /** How often a name occurs in a hidden request. */
  lemma HiddenCount(r: string, v: string, kept: seq<string>, c: string, name: string)
    requires name in HIDDEN && Count(kept, name) == 0
    requires NameOf(r) == Some("record-route") && NameOf(v) == Some("via") && NameOf(c) == Some("contact")
    ensures Count([r, v] + kept + [c], name) == if name == "route" then 0 else 1
  {
    hide Count, NameOf;
    assert [r, v] + kept + [c] == [r] + ([v] + (kept + [c]));
    CountAppend([r], [v] + (kept + [c]), name);
    CountAppend([v], kept + [c], name);
    CountAppend(kept, [c], name);
    CountOne(r, name);
    CountOne(v, name);
    CountOne(c, name);
  }

  lemma HiddenOthers(r: string, v: string, kept: seq<string>, c: string, names: set<string>)
    requires HIDDEN <= names
    requires NameOf(r) == Some("record-route") && NameOf(v) == Some("via") && NameOf(c) == Some("contact")
    ensures Others([r, v] + kept + [c], names) == Others(kept, names)
  {
    hide Others, NameOf;
    assert [r, v] + kept + [c] == [r] + ([v] + (kept + [c]));
    OthersAppend([r], [v] + (kept + [c]), names);
    OthersAppend([v], kept + [c], names);
    OthersAppend(kept, [c], names);
    DropOwn(r, names);
    DropOwn(v, names);
    DropOwn(c, names);
  }

  lemma HiddenHops(r: string, v: string, kept: seq<string>, c: string)
    requires NameOf(r) == Some("record-route") && NameOf(v) == Some("via") && NameOf(c) == Some("contact")
    ensures MaxForwards([r, v] + kept + [c]) == MaxForwards(kept)
  {
    hide NameOf, HopsOf, MaxForwards;
    assert [r, v] + kept + [c] == [r] + ([v] + (kept + [c]));
    MaxForwardsAppend([r], [v] + (kept + [c]));
    MaxForwardsAppend([v], kept + [c]);
    MaxForwardsAppend(kept, [c]);
    NotHops(r);
    NotHops(v);
    NotHops(c);
  }

  lemma NotHops(h: string)
    requires NameOf(h).Some? && NameOf(h) != Some("max-forwards")
    ensures MaxForwards([h]) == None
  {
    hide NameOf, HopsOf;
    assert [h][1..] == [];
    if HopsOf(h).Some? { HopsAreNamed(h); }
  }

  /** Outbound hiding of any received text that holds a request, read back from the text
      it produces: start line and body as they were; exactly one Via, Contact and
      Record-Route, each the SBC's, and no Route; every other line but Max-Forwards as
      it was, in order; Max-Forwards one lower, 0 left at 0, 70 when there was none. */
  lemma OutboundHides(raw: string, id: SbcIdentity, transport: string, branch: string)
    requires !("SIP/2.0" <= Parse(raw).start) && Clean(id, transport, branch)
    ensures var m, r := Parse(raw), Parse(OutboundText(raw, id, transport, branch));
            && r.start == m.start && r.body == m.body
            && r.headers == [RecordRouteLine(id), ViaLine(id, transport, branch)]
                            + Others(Decremented(m.headers).0, HIDDEN) + [ContactLine(id)]
            && Count(r.headers, "via") == Count(r.headers, "contact") == Count(r.headers, "record-route") == 1
            && Count(r.headers, "route") == 0
            && Others(r.headers, HIDDEN + {"max-forwards"}) == Others(m.headers, HIDDEN + {"max-forwards"})
            && MaxForwards(r.headers) ==
                 match MaxForwards(m.headers) { case Some(n) => Some(SatSub(n, 1)) case None => Some(70) }
  {
    hide Parse, Render, WellFormed, Others, Decremented, Count, NameOf, MaxForwards, Clean, ViaLine, ContactLine,
      RecordRouteLine, Without;
    var m := Parse(raw);
    var out := Outbound(m, id, transport, branch);
    ParsedIsWellFormed(raw);
    OutboundWellFormed(m, id, transport, branch);
    RoundTrip(out);
    OutboundHeaders(m, id, transport, branch);
    OwnLines(id, transport, branch);
    var h1 := Decremented(m.headers).0;
    var kept := Others(h1, HIDDEN);
    var r, v, c := RecordRouteLine(id), ViaLine(id, transport, branch), ContactLine(id);
    forall name | name in HIDDEN ensures Count(out.headers, name) == if name == "route" then 0 else 1 {
      CountOthers(h1, HIDDEN, name);
      HiddenCount(r, v, kept, c, name);
    }
    var names := HIDDEN + {"max-forwards"};
    HiddenOthers(r, v, kept, c, names);
    OthersTwice(h1, HIDDEN, names);
    assert HIDDEN + names == names;
    DecrementKeepsOthers(m.headers, names);
    HiddenHops(r, v, kept, c);
    OthersKeepHops(h1, HIDDEN);
    DecrementLowers(m.headers);
  }

  /** A response only has its line structure normalised. */
  lemma OutboundResponse(raw: string, id: SbcIdentity, transport: string, branch: string)
    requires "SIP/2.0" <= Parse(raw).start
    ensures Parse(OutboundText(raw, id, transport, branch)) == Parse(raw)
  {
    ParsedIsWellFormed(raw);
    RoundTrip(Parse(raw));
  }

  // ------------------------------------------------------------------
  // The message under edit
  // ------------------------------------------------------------------

  /** `RawSipMessage::parse`. */
  method ParseRaw(raw: string) returns (m: Message)
    ensures m == Parse(raw)
  {
    hide Lines, Trim, HeadBody;
    var (head, body) := HeadBody(raw);
    var lines := AfterFirst(Lines(head));
    var headers: seq<string>, current: Option<string> := [], None;
    var i := 0;
    while i < |lines|
      invariant 0 <= i <= |lines|
      invariant Unfold(lines[i..], headers, current) == Unfold(lines, [], None)
    {
      var line := lines[i];
      assert lines[i..][1..] == lines[i + 1..];
      if Folded(line) {
        if current.Some? { current := Some(current.value + " " + Trim(line)); }
      } else {
        if current.Some? { headers := headers + [current.value]; }
        current := if line == "" then None else Some(line);
      }
      i := i + 1;
    }
    if current.Some? { headers := headers + [current.value]; }
    m := Message(Trim(UntilLineEnd(head)), headers, body);
  }

  lemma WithoutAppend(x: seq<string>, h: string, name: string)
    ensures Without(x + [h], name) == Without(x, name) + (if Named(h, name) then [] else [h])
  {
    hide Named;
    if x == [] {
      assert [] + [h] == [h] && [h][1..] == [];
    } else {
      assert (x + [h])[1..] == x[1..] + [h];
      WithoutAppend(x[1..], h, name);
    }
  }

  class RawSipMessage {
    var startLine: string
    var headers: seq<string>
    var body: string

    ghost function Contents(): Message reads this { Message(startLine, headers, body) }

    constructor (m: Message)
      ensures Contents() == m
    {
      startLine, headers, body := m.start, m.headers, m.body;
    }

    method PrependHeader(h: string)
      modifies this`headers
      ensures headers == [h] + old(headers)
    {
      headers := [h] + headers;
    }

    method AppendHeader(h: string)
      modifies this`headers
      ensures headers == old(headers) + [h]
    {
      headers := headers + [h];
    }

    /** Keep, line by line, what does not go by the name. */
    method RemoveHeader(name: string)
      modifies this`headers
      ensures headers == Without(old(headers), name)
    {
      var kept: seq<string> := [];
      var i := 0;
      assert headers[..0] == [];
      while i < |headers|
        invariant 0 <= i <= |headers| && headers == old(headers)
        invariant kept == Without(headers[..i], name)
      {
        assert headers[..i + 1] == headers[..i] + [headers[i]];
        WithoutAppend(headers[..i], headers[i], name);
        if !Named(headers[i], name) { kept := kept + [headers[i]]; }
        i := i + 1;
      }
      assert headers[..i] == headers;
      headers := kept;
    }

    /** False when the message has no hop left. */
    method DecrementMaxForwards() returns (ok: bool)
      modifies this`headers
      ensures (headers, ok) == Decremented(old(headers))
    {
      hide HopsOf, HopsLine, Decremented;
      var i := 0;
      while i < |headers|
        invariant 0 <= i <= |headers| && headers == old(headers)
        invariant forall k :: 0 <= k < i ==> HopsOf(headers[k]).None?
      {
        var hops := HopsOf(headers[i]);
        if hops.Some? {
          DecrementedAt(headers, i);
          ok := hops.value > 0;
          if ok { headers := headers[i := HopsLine(hops.value - 1)]; }
          return;
        }
        i := i + 1;
      }
      DecrementedNone(headers);
      headers := headers + [HopsLine(70)];
      ok := true;
    }
  }

  /** The decrement rewrites the first readable line in place. */
  lemma {:induction false} DecrementedAt(hs: seq<string>, i: nat)
    requires i < |hs| && HopsOf(hs[i]).Some? && forall k :: 0 <= k < i ==> HopsOf(hs[k]).None?
    ensures var n := HopsOf(hs[i]).value;
            Decremented(hs) == if n == 0 then (hs, false) else (hs[i := HopsLine(n - 1)], true)
  {
    hide HopsOf, HopsLine;
    if i == 0 {
      if HopsOf(hs[0]).value > 0 {
        assert [HopsLine(HopsOf(hs[0]).value - 1)] + hs[1..] == hs[0 := HopsLine(HopsOf(hs[0]).value - 1)];
      }
    } else {
      assert hs == [hs[0]] + hs[1..];
      DecrementedAt(hs[1..], i - 1);
      if HopsOf(hs[i]).value > 0 {
        var l := HopsLine(HopsOf(hs[i]).value - 1);
        assert [hs[0]] + hs[1..][i - 1 := l] == hs[i := l];
      }
    }
  }

  lemma {:induction false} DecrementedNone(hs: seq<string>)
    requires forall k :: 0 <= k < |hs| ==> HopsOf(hs[k]).None?
    ensures Decremented(hs) == (hs + [HopsLine(70)], true)
  {
    hide HopsOf, HopsLine;
    if hs == [] {
      assert hs + [HopsLine(70)] == [HopsLine(70)];
    } else {
      DecrementedNone(hs[1..]);
      assert hs == [hs[0]] + hs[1..];
      assert [hs[0]] + (hs[1..] + [HopsLine(70)]) == hs + [HopsLine(70)];
    }
  }

  /** `apply_topology_hiding_outbound`; a request without a hop left passes untouched there. */
  method ApplyOutbound(raw: string, id: SbcIdentity, transport: string, branch: string) returns (text: string)
    ensures text == OutboundText(raw, id, transport, branch)
  {
    hide Parse, Render, Without, Decremented;
    var m := ParseRaw(raw);
    var msg := new RawSipMessage(m);
    if IsRequest(m) {
      var _ := msg.DecrementMaxForwards();
      msg.RemoveHeader("via");
      msg.PrependHeader(ViaLine(id, transport, branch));
      msg.RemoveHeader("contact");
      msg.RemoveHeader("m");
      msg.AppendHeader(ContactLine(id));
      msg.RemoveHeader("record-route");
      msg.PrependHeader(RecordRouteLine(id));
      msg.RemoveHeader("route");
    }
    text := Render(Message(msg.startLine, msg.headers, msg.body));
  }
}
