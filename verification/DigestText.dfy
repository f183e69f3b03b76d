/** The Digest headers of `auth.rs` as text: how a challenge and a set of
    credentials are printed, and how each is read back from its comma-separated
    `key=value` parts. */
module DigestText {
  import opened Prelude
  import opened Text

  /** The keys the two header parsers know. */
  datatype Key = Realm | Nonce | Algorithm | Qop | OpaqueField | Username | Uri | Response | Nc | Cnonce | Unknown

  function KeyNamed(name: string): Key {
    if name == "realm" then Realm
    else if name == "nonce" then Nonce
    else if name == "algorithm" then Algorithm
    else if name == "qop" then Qop
    else if name == "opaque" then OpaqueField
    else if name == "username" then Username
    else if name == "uri" then Uri
    else if name == "response" then Response
    else if name == "nc" then Nc
    else if name == "cnonce" then Cnonce
    else Unknown
  }

  /** `trim_matches('"')`. */
  function TrimQuotes(s: string): (r: string)
    ensures r != "" ==> r[0] != '"' && r[|r| - 1] != '"'
    ensures forall c :: c in r ==> c in s
  {
    if s != "" && s[0] == '"' then TrimQuotes(s[1..])
    else if s != "" && s[|s| - 1] == '"' then TrimQuotes(s[..|s| - 1])
    else s
  }

  function KeyOfPart(part: string): Key {
    match SplitOnce(Trim(part), "=")
    case None => Unknown
    case Some(p) => KeyNamed(Trim(p.0))
  }

  function ValueOfPart(part: string): string {
    match SplitOnce(Trim(part), "=")
    case None => ""
    case Some(p) => TrimQuotes(Trim(p.1))
  }

  /** The value of the last part with this key. */
  function LastField(parts: seq<string>, k: Key): Option<string> {
    if parts == [] then None
    else if KeyOfPart(parts[|parts| - 1]) == k then Some(ValueOfPart(parts[|parts| - 1]))
    else LastField(parts[..|parts| - 1], k)
  }

  lemma {:induction false} LastFieldFound(parts: seq<string>, k: Key)
    requires LastField(parts, k).Some?
    ensures exists i :: 0 <= i < |parts| && KeyOfPart(parts[i]) == k
                        && LastField(parts, k).value == ValueOfPart(parts[i])
  {
    hide KeyOfPart, ValueOfPart;
    var n := |parts| - 1;
    if KeyOfPart(parts[n]) != k {
      LastFieldFound(parts[..n], k);
      var i :| 0 <= i < n && KeyOfPart(parts[..n][i]) == k && LastField(parts, k).value == ValueOfPart(parts[..n][i]);
      assert parts[i] == parts[..n][i];
    }
  }

  function Or(o: Option<string>, d: string): string { if o.Some? then o.value else d }

  datatype Challenge = Challenge(realm: string, nonce: string, algorithm: string, qop: Option<string>,
                                 opaqueText: Option<string>)

  datatype Credentials = Credentials(username: string, realm: string, nonce: string, uri: string, response: string,
                                     algorithm: string, qop: Option<string>, nc: Option<string>, cnonce: Option<string>)

  const DIGEST := "Digest "

  /** The comma-separated parts of a Digest header value. */
  function PartsOf(value: string): Option<seq<string>> {
    var v := Trim(value);
    if DIGEST <= v then Some(Split(v[|DIGEST|..], ",")) else None
  }

  function ChallengeOf(parts: seq<string>): Option<Challenge> {
    var c := Challenge(Or(LastField(parts, Realm), ""), Or(LastField(parts, Nonce), ""),
                       Or(LastField(parts, Algorithm), "MD5"), LastField(parts, Qop), LastField(parts, OpaqueField));
    if c.realm == "" || c.nonce == "" then None else Some(c)
  }

  /** `DigestChallenge::from_header`. */
  function ParseChallenge(value: string): Option<Challenge> {
    match PartsOf(value)
    case None => None
    case Some(parts) => ChallengeOf(parts)
  }

  /** The credentials a part list spells, complete or not. */
  function Collected(parts: seq<string>): Credentials {
    Credentials(Or(LastField(parts, Username), ""), Or(LastField(parts, Realm), ""), Or(LastField(parts, Nonce), ""),
                Or(LastField(parts, Uri), ""), Or(LastField(parts, Response), ""),
                Or(LastField(parts, Algorithm), "MD5"),
                LastField(parts, Qop), LastField(parts, Nc), LastField(parts, Cnonce))
  }

  function CredentialsOf(parts: seq<string>): Option<Credentials> {
    var c := Collected(parts);
    if c.username == "" || c.realm == "" || c.nonce == "" || c.response == "" then None else Some(c)
  }

  /** `DigestCredentials::from_header`. */
  function ParseCredentials(value: string): Option<Credentials> {
    match PartsOf(value)
    case None => None
    case Some(parts) => CredentialsOf(parts)
  }

  lemma LastFieldSnoc(ps: seq<string>, part: string, k: Key)
    ensures LastField(ps + [part], k) == if KeyOfPart(part) == k then Some(ValueOfPart(part)) else LastField(ps, k)
  {
    hide KeyOfPart, ValueOfPart;
    assert (ps + [part])[..|ps|] == ps;
  }

  /** One more part overwrites the slot of its key, if it has one. */
  function WithPart(c: Credentials, k: Key, v: string): Credentials {
    match k
    case Username => c.(username := v)
    case Realm => c.(realm := v)
    case Nonce => c.(nonce := v)
    case Uri => c.(uri := v)
    case Response => c.(response := v)
    case Algorithm => c.(algorithm := v)
    case Qop => c.(qop := Some(v))
    case Nc => c.(nc := Some(v))
    case Cnonce => c.(cnonce := Some(v))
    case OpaqueField => c
    case Unknown => c
  }

  lemma CollectedSnoc(ps: seq<string>, part: string)
    ensures Collected(ps + [part]) == WithPart(Collected(ps), KeyOfPart(part), ValueOfPart(part))
  {
    hide KeyOfPart, ValueOfPart, LastField;
    LastFieldSnoc(ps, part, Username);
    LastFieldSnoc(ps, part, Realm);
    LastFieldSnoc(ps, part, Nonce);
    LastFieldSnoc(ps, part, Uri);
    LastFieldSnoc(ps, part, Response);
    LastFieldSnoc(ps, part, Algorithm);
    LastFieldSnoc(ps, part, Qop);
    LastFieldSnoc(ps, part, Nc);
    LastFieldSnoc(ps, part, Cnonce);
  }

  lemma NothingCollected() ensures Collected([]) == Credentials("", "", "", "", "", "MD5", None, None, None) {}

  /** The part loop of the program: each known key overwrites its slot. */
  method ReadCredentials(value: string) returns (r: Option<Credentials>)
    ensures r == ParseCredentials(value)
  {
    hide KeyOfPart, ValueOfPart, PartsOf, Collected;
    var parts := PartsOf(value);
    if parts.None? { return None; }
    var ps := parts.value;
    var c := Credentials("", "", "", "", "", "MD5", None, None, None);
    NothingCollected();
    assert ps[..0] == [];
    for i := 0 to |ps|
      invariant c == Collected(ps[..i])
    {
      assert ps[..i + 1] == ps[..i] + [ps[i]];
      CollectedSnoc(ps[..i], ps[i]);
      var v := ValueOfPart(ps[i]);
      match KeyOfPart(ps[i]) {
        case Username => c := c.(username := v);
        case Realm => c := c.(realm := v);
        case Nonce => c := c.(nonce := v);
        case Uri => c := c.(uri := v);
        case Response => c := c.(response := v);
        case Algorithm => c := c.(algorithm := v);
        case Qop => c := c.(qop := Some(v));
        case Nc => c := c.(nc := Some(v));
        case Cnonce => c := c.(cnonce := Some(v));
        case OpaqueField =>
        case Unknown =>
      }
    }
    assert ps[..|ps|] == ps;
    if c.username == "" || c.realm == "" || c.nonce == "" || c.response == "" { return None; }
    return Some(c);
  }

  /** The same loop over a challenge. */
  method ReadChallenge(value: string) returns (r: Option<Challenge>)
    ensures r == ParseChallenge(value)
  {
    hide KeyOfPart, ValueOfPart, PartsOf;
    var parts := PartsOf(value);
    if parts.None? { return None; }
    var ps := parts.value;
    var c := Challenge("", "", "MD5", None, None);
    for i := 0 to |ps|
      invariant c.realm == Or(LastField(ps[..i], Realm), "") && c.nonce == Or(LastField(ps[..i], Nonce), "")
      invariant c.algorithm == Or(LastField(ps[..i], Algorithm), "MD5")
      invariant c.qop == LastField(ps[..i], Qop) && c.opaqueText == LastField(ps[..i], OpaqueField)
    {
      assert ps[..i + 1][..i] == ps[..i] && ps[..i + 1][i] == ps[i];
      var v := ValueOfPart(ps[i]);
      match KeyOfPart(ps[i]) {
        case Realm => c := c.(realm := v);
        case Nonce => c := c.(nonce := v);
        case Algorithm => c := c.(algorithm := v);
        case Qop => c := c.(qop := Some(v));
        case OpaqueField => c := c.(opaqueText := Some(v));
        case _ =>
      }
    }
    assert ps[..|ps|] == ps;
    if c.realm == "" || c.nonce == "" { return None; }
    return Some(c);
  }

  // ------------------------------------------------------------------
  // Printing
  // ------------------------------------------------------------------

  function Quoted(key: string, value: string): string { key + "=" + ("\"" + value + "\"") }

  function Bare(key: string, value: string): string { key + "=" + value }

  /** `f1, f2, ...`: every field but the first is preceded by a blank. */
  function Spaced(fields: seq<string>): (r: seq<string>)
    ensures |r| == |fields| && forall i :: 0 <= i < |r| ==> r[i] == if i == 0 then fields[0] else " " + fields[i]
  {
    seq(|fields|, i requires 0 <= i < |fields| => if i == 0 then fields[0] else " " + fields[i])
  }

  function HeaderText(fields: seq<string>): string
    requires |fields| >= 1
  {
    DIGEST + Join(Spaced(fields), ",")
  }

  function ChallengeFields(realm: string, nonce: string, stale: bool): seq<string> {
    [Quoted("realm", realm), Quoted("nonce", nonce), Bare("algorithm", "MD5"), Quoted("qop", "auth")]
    + (if stale then [Bare("stale", "true")] else [])
  }

  /** The challenge `generate_challenge_with` prints. */
  function ChallengeText(realm: string, nonce: string, stale: bool): string {
    HeaderText(ChallengeFields(realm, nonce, stale))
  }

  function CredentialFields(c: Credentials, opaqueText: Option<string>): seq<string> {
    [Quoted("username", c.username), Quoted("realm", c.realm), Quoted("nonce", c.nonce), Quoted("uri", c.uri),
     Quoted("response", c.response), Bare("algorithm", c.algorithm)]
    + (if c.qop.Some? && c.nc.Some? && c.cnonce.Some? then
         [Bare("qop", c.qop.value), Bare("nc", c.nc.value), Quoted("cnonce", c.cnonce.value)] else [])
    + (if opaqueText.Some? then [Quoted("opaque", opaqueText.value)] else [])
  }

  /** The header value `generate_digest_response` prints. */
  function CredentialsText(c: Credentials, opaqueText: Option<string>): string {
    HeaderText(CredentialFields(c, opaqueText))
  }

  // ------------------------------------------------------------------
  // What survives printing and parsing
  // ------------------------------------------------------------------

  /** No comma, and no double quote at either end. */
  predicate Plain(v: string) {
    ',' !in v && (v != "" ==> v[0] != '"' && v[|v| - 1] != '"')
  }

  predicate Letters(key: string) { key != "" && forall i :: 0 <= i < |key| ==> 'a' <= key[i] <= 'z' }

  /** A printed field and what it reads as. */
  predicate Reads(field: string, k: Key, v: string) {
    field != "" && ',' !in field && Trimmed(field) && KeyOfPart(field) == k && ValueOfPart(field) == v
  }

  lemma LettersAreClean(key: string)
    requires Letters(key)
    ensures '=' !in key && ',' !in key && Trimmed(key)
  {
  }

  lemma {:induction false} UnquotePlain(v: string)
    requires Plain(v)
    ensures TrimQuotes("\"" + v + "\"") == v && (v != "" ==> TrimQuotes(v) == v)
  {
    var q := "\"" + v + "\"";
    assert q[1..] == v + "\"";
    var t := v + "\"";
    assert t[..|t| - 1] == v;
    if v == "" {
      assert t == "\"" && t[1..] == "";
      assert TrimQuotes("") == "";
      assert TrimQuotes(t) == TrimQuotes(t[1..]);
    } else {
      assert t[0] == v[0];
      assert TrimQuotes(v) == v;
      assert TrimQuotes(t) == TrimQuotes(v);
    }
    assert TrimQuotes(q) == TrimQuotes(t);
  }

  /** A field `key=text` reads as its key and its unquoted text. */
  lemma {:induction false} FieldReads(key: string, text: string, k: Key)
    requires Letters(key) && KeyNamed(key) == k && ',' !in text && text != "" && Trimmed(text)
    ensures Reads(key + "=" + text, k, TrimQuotes(text))
  {
    hide KeyNamed, TrimQuotes, Letters, Trim, IsWhite;
    var f := key + "=" + text;
    LettersAreClean(key);
    FindChar(key, '=');
    SplitOnceAt(key, "=", text);
    assert Trimmed(f) by {
      assert f[|f| - 1] == text[|text| - 1];
      FirstLetter(key);
      assert f[0] == key[0];
    }
    TrimIsTrimmed(f);
    TrimIsTrimmed(key);
    TrimIsTrimmed(text);
  }

  lemma FirstLetter(key: string)
    requires Letters(key)
    ensures key != "" && !IsWhite(key[0])
  {
  }

  lemma {:induction false} QuotedReads(key: string, v: string, k: Key)
    requires Letters(key) && KeyNamed(key) == k && Plain(v)
    ensures Reads(Quoted(key, v), k, v)
  {
    hide KeyNamed, Letters, Reads, TrimQuotes;
    var text := "\"" + v + "\"";
    assert text[0] == '"' && text[|text| - 1] == '"';
    UnquotePlain(v);
    FieldReads(key, text, k);
  }

  lemma {:induction false} BareReads(key: string, v: string, k: Key)
    requires Letters(key) && KeyNamed(key) == k && Plain(v) && v != "" && Trimmed(v)
    ensures Reads(Bare(key, v), k, v)
  {
    hide KeyNamed, Letters, Reads, TrimQuotes;
    UnquotePlain(v);
    FieldReads(key, v, k);
  }

  lemma {:induction false} PaddedPart(field: string)
    ensures KeyOfPart(" " + field) == KeyOfPart(field) && ValueOfPart(" " + field) == ValueOfPart(field)
  {
    hide Trim;
    TrimPadded(field);
  }

  ghost predicate AllRead(fields: seq<string>, ks: seq<Key>, vs: seq<string>) {
    |fields| == |ks| == |vs| && forall i :: 0 <= i < |fields| ==> Reads(fields[i], ks[i], vs[i])
  }

  lemma {:induction false} JoinEnd(ls: seq<string>)
    requires |ls| >= 1 && ls[|ls| - 1] != ""
    ensures Join(ls, ",") != "" && Join(ls, ",")[|Join(ls, ",")| - 1] == ls[|ls| - 1][|ls[|ls| - 1]| - 1]
  {
    if |ls| > 1 {
      var t := ls[1..];
      assert t[|t| - 1] == ls[|ls| - 1];
      JoinEnd(t);
      assert Join(ls, ",") == ls[0] + "," + Join(t, ",");
    }
  }

  /** A printed header is read back part by part. */
  lemma {:induction false} PartsRead(fields: seq<string>, ks: seq<Key>, vs: seq<string>)
    requires |fields| >= 1 && AllRead(fields, ks, vs)
    ensures PartsOf(HeaderText(fields)) == Some(Spaced(fields))
    ensures forall i :: 0 <= i < |fields| ==>
              KeyOfPart(Spaced(fields)[i]) == ks[i] && ValueOfPart(Spaced(fields)[i]) == vs[i]
  {
    hide KeyOfPart, ValueOfPart, Split, Join, Find, IsWhite, Reads, Trim;
    var ps := Spaced(fields);
    forall i | 0 <= i < |fields|
      ensures KeyOfPart(ps[i]) == ks[i] && ValueOfPart(ps[i]) == vs[i] && Find(ps[i], ",").None?
      ensures ps[i] != "" && !IsWhite(ps[i][|ps[i]| - 1])
    {
      PartReads(fields[i], ks[i], vs[i]);
    }
    FindChar("", ',');
    SplitJoin(ps, ",");
    JoinEnd(ps);
    HeaderIsTrimmed(Join(ps, ","));
  }

  lemma {:induction false} PartReads(field: string, k: Key, v: string)
    requires Reads(field, k, v)
    ensures forall part :: part == field || part == " " + field ==>
              && KeyOfPart(part) == k && ValueOfPart(part) == v && Find(part, ",").None?
              && part != "" && !IsWhite(part[|part| - 1])
  {
    hide KeyOfPart, ValueOfPart, Find, IsWhite;
    var padded := " " + field;
    PaddedPart(field);
    FindChar(field, ',');
    FindChar(padded, ',');
    assert padded[|padded| - 1] == field[|field| - 1];
  }

  lemma {:induction false} HeaderIsTrimmed(rest: string)
    requires rest != "" && !IsWhite(rest[|rest| - 1])
    ensures Trim(DIGEST + rest) == DIGEST + rest && (DIGEST + rest)[|DIGEST|..] == rest && DIGEST <= DIGEST + rest
  {
    hide Trim;
    var s := DIGEST + rest;
    assert s[0] == 'D' && s[|s| - 1] == rest[|rest| - 1];
    TrimIsTrimmed(s);
  }

  lemma {:induction false} LastFieldIs(parts: seq<string>, k: Key, i: nat)
    requires i < |parts| && KeyOfPart(parts[i]) == k
    requires forall j :: i < j < |parts| ==> KeyOfPart(parts[j]) != k
    ensures LastField(parts, k) == Some(ValueOfPart(parts[i]))
  {
    hide KeyOfPart, ValueOfPart;
    if i < |parts| - 1 { LastFieldIs(parts[..|parts| - 1], k, i); }
  }

  lemma {:induction false} LastFieldNone(parts: seq<string>, k: Key)
    requires forall j :: 0 <= j < |parts| ==> KeyOfPart(parts[j]) != k
    ensures LastField(parts, k).None?
  {
    hide KeyOfPart, ValueOfPart;
    if parts != [] { LastFieldNone(parts[..|parts| - 1], k); }
  }

  lemma KeysA()
    ensures KeyNamed("realm") == Realm && KeyNamed("nonce") == Nonce && KeyNamed("algorithm") == Algorithm
    ensures KeyNamed("qop") == Qop && KeyNamed("stale") == Unknown
    ensures Letters("realm") && Letters("nonce") && Letters("algorithm") && Letters("qop") && Letters("stale")
  {
  }

  lemma KeysB()
    ensures KeyNamed("username") == Username && KeyNamed("uri") == Uri && KeyNamed("response") == Response
    ensures Letters("username") && Letters("uri") && Letters("response")
  {
  }

  lemma KeysC()
    ensures KeyNamed("nc") == Nc && KeyNamed("cnonce") == Cnonce && KeyNamed("opaque") == OpaqueField
    ensures Letters("nc") && Letters("cnonce") && Letters("opaque")
  {
  }

  lemma PlainWords()
    ensures Plain("MD5") && Plain("auth") && Plain("true")
    ensures Trimmed("MD5") && Trimmed("auth") && Trimmed("true")
  {
  }

  /** The printed challenge carries its realm and nonce to the reader. */
  lemma {:induction false} ChallengeReads(realm: string, nonce: string, stale: bool)
    requires Plain(realm) && realm != "" && Plain(nonce) && nonce != ""
    ensures ParseChallenge(ChallengeText(realm, nonce, stale))
            == Some(Challenge(realm, nonce, "MD5", Some("auth"), None))
  {
    hide KeyNamed, Letters, Reads, Quoted, Bare, Plain, PartsOf, HeaderText, KeyOfPart, ValueOfPart, Trimmed, LastField,
      Spaced;
    KeysA();
    PlainWords();
    QuotedReads("realm", realm, Realm);
    QuotedReads("nonce", nonce, Nonce);
    BareReads("algorithm", "MD5", Algorithm);
    QuotedReads("qop", "auth", Qop);
    BareReads("stale", "true", Unknown);
    var fields := ChallengeFields(realm, nonce, stale);
    var ks := [Realm, Nonce, Algorithm, Qop] + (if stale then [Unknown] else []);
    var vs := [realm, nonce, "MD5", "auth"] + (if stale then ["true"] else []);
    PartsRead(fields, ks, vs);
    FieldsAreChallenge(Spaced(fields), realm, nonce);
  }

  lemma {:induction false} FieldsAreChallenge(ps: seq<string>, realm: string, nonce: string)
    requires 4 <= |ps| <= 5 && (|ps| == 5 ==> KeyOfPart(ps[4]) == Unknown) && realm != "" && nonce != ""
    requires KeyOfPart(ps[0]) == Realm && KeyOfPart(ps[1]) == Nonce && KeyOfPart(ps[2]) == Algorithm
             && KeyOfPart(ps[3]) == Qop
    requires ValueOfPart(ps[0]) == realm && ValueOfPart(ps[1]) == nonce && ValueOfPart(ps[2]) == "MD5"
             && ValueOfPart(ps[3]) == "auth"
    ensures ChallengeOf(ps) == Some(Challenge(realm, nonce, "MD5", Some("auth"), None))
  {
    hide KeyOfPart, ValueOfPart, LastField;
    LastFieldIs(ps, Realm, 0);
    LastFieldIs(ps, Nonce, 1);
    LastFieldIs(ps, Algorithm, 2);
    LastFieldIs(ps, Qop, 3);
    LastFieldNone(ps, OpaqueField);
  }

  /** Credentials that can be carried: what must not be empty is not, all values are
      plain, and the three qop values come together. */
  predicate Carriable(c: Credentials) {
    && Plain(c.username) && c.username != "" && Plain(c.realm) && c.realm != "" && Plain(c.nonce) && c.nonce != ""
    && Plain(c.uri) && Plain(c.response) && c.response != ""
    && Plain(c.algorithm) && c.algorithm != "" && Trimmed(c.algorithm)
    && (c.qop.Some? <==> c.nc.Some?) && (c.qop.Some? <==> c.cnonce.Some?)
    && (c.qop.Some? ==>
          && Plain(c.qop.value) && c.qop.value != "" && Trimmed(c.qop.value)
          && Plain(c.nc.value) && c.nc.value != "" && Trimmed(c.nc.value) && Plain(c.cnonce.value))
  }

  /** Printed credentials are read back unchanged. */
  lemma {:induction false} CredentialsRead(c: Credentials, opaqueText: Option<string>)
    requires Carriable(c) && (opaqueText.Some? ==> Plain(opaqueText.value))
    ensures ParseCredentials(CredentialsText(c, opaqueText)) == Some(c)
  {
    hide KeyNamed, Letters, Reads, Quoted, Bare, Plain, PartsOf, HeaderText, KeyOfPart, ValueOfPart, Trimmed, LastField,
      Spaced, CredentialsOf;
    KeysA();
    KeysB();
    KeysC();
    QuotedReads("username", c.username, Username);
    QuotedReads("realm", c.realm, Realm);
    QuotedReads("nonce", c.nonce, Nonce);
    QuotedReads("uri", c.uri, Uri);
    QuotedReads("response", c.response, Response);
    BareReads("algorithm", c.algorithm, Algorithm);
    var fields := CredentialFields(c, opaqueText);
    var ks, vs := [Username, Realm, Nonce, Uri, Response, Algorithm],
                  [c.username, c.realm, c.nonce, c.uri, c.response, c.algorithm];
    if c.qop.Some? {
      BareReads("qop", c.qop.value, Qop);
      BareReads("nc", c.nc.value, Nc);
      QuotedReads("cnonce", c.cnonce.value, Cnonce);
      ks, vs := ks + [Qop, Nc, Cnonce], vs + [c.qop.value, c.nc.value, c.cnonce.value];
    }
    if opaqueText.Some? {
      QuotedReads("opaque", opaqueText.value, OpaqueField);
      ks, vs := ks + [OpaqueField], vs + [opaqueText.value];
    }
    PartsRead(fields, ks, vs);
    FieldsAreCredentials(Spaced(fields), c);
  }

  predicate LateKey(k: Key) { k == Qop || k == Nc || k == Cnonce || k == OpaqueField }

  predicate MandatoryParts(ps: seq<string>, c: Credentials) {
    && |ps| >= 6
    && KeyOfPart(ps[0]) == Username && KeyOfPart(ps[1]) == Realm && KeyOfPart(ps[2]) == Nonce && KeyOfPart(ps[3]) == Uri
    && KeyOfPart(ps[4]) == Response && KeyOfPart(ps[5]) == Algorithm
    && ValueOfPart(ps[0]) == c.username && ValueOfPart(ps[1]) == c.realm && ValueOfPart(ps[2]) == c.nonce
    && ValueOfPart(ps[3]) == c.uri && ValueOfPart(ps[4]) == c.response && ValueOfPart(ps[5]) == c.algorithm
  }

  predicate QopParts(ps: seq<string>, c: Credentials) {
    && c.qop.Some? && c.nc.Some? && c.cnonce.Some? && |ps| >= 9
    && KeyOfPart(ps[6]) == Qop && KeyOfPart(ps[7]) == Nc && KeyOfPart(ps[8]) == Cnonce
    && ValueOfPart(ps[6]) == c.qop.value && ValueOfPart(ps[7]) == c.nc.value && ValueOfPart(ps[8]) == c.cnonce.value
    && forall j :: 9 <= j < |ps| ==> KeyOfPart(ps[j]) == OpaqueField
  }

  predicate NoQopParts(ps: seq<string>, c: Credentials) {
    && c.qop.None? && c.nc.None? && c.cnonce.None?
    && forall j :: 6 <= j < |ps| ==> KeyOfPart(ps[j]) == OpaqueField
  }

  lemma {:induction false} EarlyFields(ps: seq<string>, c: Credentials)
    requires MandatoryParts(ps, c) && forall j :: 6 <= j < |ps| ==> LateKey(KeyOfPart(ps[j]))
    ensures LastField(ps, Username) == Some(c.username) && LastField(ps, Realm) == Some(c.realm)
    ensures LastField(ps, Nonce) == Some(c.nonce) && LastField(ps, Uri) == Some(c.uri)
    ensures LastField(ps, Response) == Some(c.response) && LastField(ps, Algorithm) == Some(c.algorithm)
  {
    hide KeyOfPart, ValueOfPart, LastField;
    LastFieldIs(ps, Username, 0);
    LastFieldIs(ps, Realm, 1);
    LastFieldIs(ps, Nonce, 2);
    LastFieldIs(ps, Uri, 3);
    LastFieldIs(ps, Response, 4);
    LastFieldIs(ps, Algorithm, 5);
  }

  lemma {:induction false} LateFields(ps: seq<string>, c: Credentials)
    requires MandatoryParts(ps, c) && (QopParts(ps, c) || NoQopParts(ps, c))
    ensures LastField(ps, Qop) == c.qop && LastField(ps, Nc) == c.nc && LastField(ps, Cnonce) == c.cnonce
    ensures forall j :: 6 <= j < |ps| ==> LateKey(KeyOfPart(ps[j]))
  {
    hide KeyOfPart, ValueOfPart, LastField;
    if QopParts(ps, c) {
      LastFieldIs(ps, Qop, 6);
      LastFieldIs(ps, Nc, 7);
      LastFieldIs(ps, Cnonce, 8);
    } else {
      LastFieldNone(ps, Qop);
      LastFieldNone(ps, Nc);
      LastFieldNone(ps, Cnonce);
    }
  }

  lemma {:induction false} FieldsAreCredentials(ps: seq<string>, c: Credentials)
    requires MandatoryParts(ps, c) && (QopParts(ps, c) || NoQopParts(ps, c))
    requires c.username != "" && c.realm != "" && c.nonce != "" && c.response != ""
    ensures CredentialsOf(ps) == Some(c)
  {
    hide KeyOfPart, ValueOfPart, LastField, MandatoryParts, QopParts, NoQopParts;
    LateFields(ps, c);
    EarlyFields(ps, c);
  }

  // ------------------------------------------------------------------
  // What parsing can yield at all
  // ------------------------------------------------------------------

  lemma {:induction false} TrimKeepsChars(s: string)
    ensures forall c :: c in Trim(s) ==> c in s
  {
    hide TrimStart, TrimEnd;
    var a := TrimStart(s);
    TrimStartFacts(s);
    TrimEndFacts(a);
    assert forall c :: c in a ==> c in s;
  }

  lemma {:induction false} ValueIsPlain(part: string)
    requires ',' !in part
    ensures Plain(ValueOfPart(part))
  {
    hide Trim, TrimQuotes;
    TrimKeepsChars(part);
    match SplitOnce(Trim(part), "=")
    case None =>
    case Some(p) =>
      TrimKeepsChars(p.1);
      assert forall c :: c in p.1 ==> c in p.0 + "=" + p.1;
  }

  lemma {:induction false} FieldIsPlain(value: string, k: Key)
    requires PartsOf(value).Some?
    ensures LastField(PartsOf(value).value, k).Some? ==> Plain(LastField(PartsOf(value).value, k).value)
  {
    hide KeyOfPart, ValueOfPart, Split, Plain, Trim;
    var v := Trim(value);
    var parts := Split(v[|DIGEST|..], ",");
    SplitClean(v[|DIGEST|..], ",");
    forall i | 0 <= i < |parts| ensures Plain(ValueOfPart(parts[i])) {
      FindChar(parts[i], ',');
      ValueIsPlain(parts[i]);
    }
    if LastField(parts, k).Some? { LastFieldFound(parts, k); }
  }

  /** Exactly which challenges survive the comma and equals splitting: the ones whose
      realm and nonce are not empty and plain. */
  lemma {:induction false} ChallengeSurvivesIff(realm: string, nonce: string, stale: bool)
    ensures ParseChallenge(ChallengeText(realm, nonce, stale))
            == Some(Challenge(realm, nonce, "MD5", Some("auth"), None)) <==>
              realm != "" && nonce != "" && Plain(realm) && Plain(nonce)
  {
    hide PartsOf, ChallengeText, LastField, Plain;
    var text := ChallengeText(realm, nonce, stale);
    if ParseChallenge(text) == Some(Challenge(realm, nonce, "MD5", Some("auth"), None)) {
      FieldIsPlain(text, Realm);
      FieldIsPlain(text, Nonce);
    } else if realm != "" && nonce != "" && Plain(realm) && Plain(nonce) {
      ChallengeReads(realm, nonce, stale);
    }
  }

  /** The program's own tokens in a credentials header. */
  predicate Tokens(c: Credentials) {
    && Plain(c.algorithm) && c.algorithm != "" && Trimmed(c.algorithm)
    && (c.qop.Some? <==> c.nc.Some?) && (c.qop.Some? <==> c.cnonce.Some?)
    && (c.qop.Some? ==>
          && Plain(c.qop.value) && c.qop.value != "" && Trimmed(c.qop.value)
          && Plain(c.nc.value) && c.nc.value != "" && Trimmed(c.nc.value) && Plain(c.cnonce.value))
  }

  /** Exactly which credentials survive: the ones whose user, realm, nonce and response
      are not empty and whose values are all plain. */
  lemma {:induction false} CredentialsSurviveIff(c: Credentials, opaqueText: Option<string>)
    requires Tokens(c) && (opaqueText.Some? ==> Plain(opaqueText.value))
    ensures ParseCredentials(CredentialsText(c, opaqueText)) == Some(c) <==>
              && c.username != "" && c.realm != "" && c.nonce != "" && c.response != ""
              && Plain(c.username) && Plain(c.realm) && Plain(c.nonce) && Plain(c.response) && Plain(c.uri)
  {
    hide PartsOf, CredentialsText, LastField, Plain;
    var text := CredentialsText(c, opaqueText);
    if ParseCredentials(text) == Some(c) {
      FieldIsPlain(text, Username);
      FieldIsPlain(text, Realm);
      FieldIsPlain(text, Nonce);
      FieldIsPlain(text, Response);
      FieldIsPlain(text, Uri);
      EmptyIsPlain();
    } else if Carriable(c) {
      CredentialsRead(c, opaqueText);
    }
  }

  lemma EmptyIsPlain() ensures Plain("") {}
}
