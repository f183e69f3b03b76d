/** What the answer to a set of credentials means: whom a verdict lets in, whom it turns
    away and why, and which challenges a new one displaces, with the digest written out as
    in section 3.4.1 of RFC 7616. */
module DigestVerdicts {
  import opened Prelude
  import opened Text
  import opened DigestText
  import opened DigestAuth

  /** The response is the digest of the secret `ha1` and this request. */
  predicate Proves(md5: Md5, ha1: string, c: Credentials, verb: string) {
    c.response ==
      if c.qop == Some("auth") then
        md5(ha1 + ":" + c.nonce + ":" + (if c.nc.Some? then c.nc.value else "00000001") + ":"
            + (if c.cnonce.Some? then c.cnonce.value else "") + ":auth:" + md5(verb + ":" + c.uri))
      else md5(ha1 + ":" + c.nonce + ":" + md5(verb + ":" + c.uri))
  }

  /** A known user who proves to hold the stored secret. */
  predicate Genuine(md5: Md5, users: map<string, string>, c: Credentials, verb: string) {
    c.username in users && Proves(md5, users[c.username], c, verb)
  }

  /** The nonce was issued at most 300 seconds ago and is still remembered. */
  predicate LiveNonce(nonces: map<string, NonceRecord>, nonce: string, now: nat) {
    nonce in nonces && now <= nonces[nonce].createdAt + 300
  }

  /** The number of uses of the nonce the request claims, when it can be read. */
  function Count(c: Credentials): Option<nat> { if c.nc.Some? then ParseHex32(Trim(c.nc.value)) else None }

  /** What a verdict says of the credentials it was given. The right response on a live nonce
      that is still refused is a replay if it presents a count, else the nonce is used up. */
  ghost predicate Justified(md5: Md5, before: Auth, c: Credentials, verb: string, now: nat, after: Auth, v: Verdict) {
    && (v.Accepted? ==>
          v.user == c.username && Genuine(md5, before.users, c, verb) && LiveNonce(before.nonces, c.nonce, now))
    && (c.nonce !in before.nonces ==> v == StaleNonce && after == before)
    && (LiveNonce(before.nonces, c.nonce, now) && !Genuine(md5, before.users, c, verb) ==>
          v == (if c.username in before.users then BadCredentials else UnknownUser) && after == before)
    && (LiveNonce(before.nonces, c.nonce, now) && Genuine(md5, before.users, c, verb) ==>
          v == Accepted(c.username) || v == (if c.qop == Some("auth") && Count(c).Some? then Replay else StaleNonce))
    && (c.nonce in before.nonces && !LiveNonce(before.nonces, c.nonce, now) ==>
          && v == (if Genuine(md5, before.users, c, verb) then StaleNonce
                   else if c.username in before.users then BadCredentials else UnknownUser)
          && after == before.(nonces := before.nonces - {c.nonce}))
    && (!v.Accepted? && LiveNonce(before.nonces, c.nonce, now) ==> after == before)
    && after.users == before.users && after.realm == before.realm
  }

  lemma DigestIsGenuine(md5: Md5, s: Auth, c: Credentials, verb: string)
    ensures DigestOk(md5, s, c, verb) <==> Genuine(md5, s.users, c, verb)
  {
  }

  lemma ReplayVerdicts(r: NonceRecord, c: Credentials, fp: Option<nat>)
    ensures Replayed(r, c, fp).Some? ==>
              Replayed(r, c, fp).value == if c.qop == Some("auth") && Count(c).Some? then Replay else StaleNonce
  {
    hide ParseHex32;
  }

  /** Every verdict is justified: only a known user whose response is the digest of the
      stored secret and of this very request is let in, on a live nonce; on a live nonce
      any other response is turned away as what it is, and changes nothing. */
  lemma VerdictIsJustified(md5: Md5, s: Auth, header: string, verb: string, fp: Option<nat>, now: nat)
    ensures var (after, v) := VerifyHeader(md5, s, header, verb, fp, now);
            match ParseCredentials(header)
            case None => v == Malformed && after == s
            case Some(c) => Justified(md5, s, c, verb, now, after, v)
  {
    hide ParseCredentials, DigestOk, Genuine, Replayed, Used, Count;
    match ParseCredentials(header)
    case None =>
    case Some(c) =>
      DigestIsGenuine(md5, s, c, verb);
      if c.nonce in s.nonces { ReplayVerdicts(s.nonces[c.nonce], c, fp); }
  }

  // ------------------------------------------------------------------
  // Other passwords
  // ------------------------------------------------------------------

  ghost predicate Injective(md5: Md5) {
    forall a: string, b: string {:trigger md5(a), md5(b)} :: md5(a) == md5(b) ==> a == b
  }

  lemma SameEnd(a: string, b: string, end: string)
    requires a + end == b + end
    ensures a == b
  {
    assert a == (a + end)[..|a|] && b == (b + end)[..|b|];
    assert |a| == |b|;
  }

  lemma SameStart(a: string, b: string, x: string, y: string)
    requires a + x + y == b + x + y
    ensures a == b
  {
    SameEnd(a + x, b + x, y);
    SameEnd(a, b, x);
  }

  lemma QopSecret(a: string, b: string, nonce: string, nc: string, cnonce: string, ha2: string)
    requires a + ":" + nonce + ":" + nc + ":" + cnonce + ":auth:" + ha2
             == b + ":" + nonce + ":" + nc + ":" + cnonce + ":auth:" + ha2
    ensures a == b
  {
    var x, y := a + ":" + nonce, b + ":" + nonce;
    SameStart(x + ":" + nc + ":" + cnonce, y + ":" + nc + ":" + cnonce, ":auth:", ha2);
    SameStart(x + ":" + nc, y + ":" + nc, ":", cnonce);
    SameStart(x, y, ":", nc);
    SameStart(a, b, ":", nonce);
  }

  lemma PlainSecret(a: string, b: string, nonce: string, ha2: string)
    requires a + ":" + nonce + ":" + ha2 == b + ":" + nonce + ":" + ha2
    ensures a == b
  {
    SameStart(a + ":" + nonce, b + ":" + nonce, ":", ha2);
    SameStart(a, b, ":", nonce);
  }

  /** With a digest that has no collisions, one secret's response proves no other. */
  lemma OneSecret(md5: Md5, ha1: string, other: string, c: Credentials, verb: string)
    requires Injective(md5) && Proves(md5, ha1, c, verb) && Proves(md5, other, c, verb)
    ensures ha1 == other
  {
    var ha2 := md5(verb + ":" + c.uri);
    if c.qop == Some("auth") {
      QopSecret(ha1, other, c.nonce, if c.nc.Some? then c.nc.value else "00000001",
                if c.cnonce.Some? then c.cnonce.value else "", ha2);
    } else {
      PlainSecret(ha1, other, c.nonce, ha2);
    }
  }

  /** The client half answers with the digest of its own password (section 3.4.2 of
      RFC 7616: the secret is the digest of user, realm and password). */
  lemma AnswerProves(md5: Md5, user: string, password: string, ch: Challenge, verb: string, uri: string, cnonce: string)
    ensures var c := Answer(md5, user, password, ch, verb, uri, cnonce);
            && Proves(md5, md5(user + ":" + ch.realm + ":" + password), c, verb)
            && c.username == user && c.realm == ch.realm && c.nonce == ch.nonce && c.uri == uri
            && (c.qop.Some? <==> ch.qop.Some? && Find(ch.qop.value, "auth").Some?)
            && (c.qop.Some? ==> c.qop == Some("auth") && c.nc == Some("00000001") && c.cnonce == Some(cnonce))
  {
    hide Find;
  }

  /** A wrong password never gets in: with a collision-free digest, the printed answer of any
      password whose secret is not the stored one is refused, as bad credentials when the
      nonce is live. */
  lemma {:induction false} WrongPasswordRefused(md5: Md5, s: Auth, user: string, password: string, ch: Challenge,
                                                verb: string, uri: string, cnonce: string, fp: Option<nat>, now: nat)
    requires Injective(md5) && Printable(md5)
    requires Plain(user) && user != "" && Plain(ch.realm) && ch.realm != "" && Plain(ch.nonce) && ch.nonce != ""
    requires Plain(uri) && Plain(cnonce) && Plain(ch.algorithm) && ch.algorithm != "" && Trimmed(ch.algorithm)
    requires ch.opaqueText.Some? ==> Plain(ch.opaqueText.value)
    requires user in s.users && s.users[user] != md5(user + ":" + ch.realm + ":" + password)
    ensures var text := AnswerText(md5, user, password, ch, verb, uri, cnonce);
            var (after, v) := VerifyHeader(md5, s, text, verb, fp, now);
            && !v.Accepted?
            && (LiveNonce(s.nonces, ch.nonce, now) ==> v == BadCredentials && after == s)
  {
    hide ParseCredentials, CredentialsText, Plain, Find, VerifyHeader, Answer, Proves, Trimmed, LiveNonce;
    var c := Answer(md5, user, password, ch, verb, uri, cnonce);
    AnswerProves(md5, user, password, ch, verb, uri, cnonce);
    AnswerCarried(md5, user, password, ch, verb, uri, cnonce);
    VerdictIsJustified(md5, s, CredentialsText(c, ch.opaqueText), verb, fp, now);
    if Proves(md5, s.users[user], c, verb) {
      OneSecret(md5, s.users[user], md5(user + ":" + ch.realm + ":" + password), c, verb);
    }
  }

  lemma AnswerCarried(md5: Md5, user: string, password: string, ch: Challenge, verb: string, uri: string,
                      cnonce: string)
    requires Printable(md5)
    requires Plain(user) && user != "" && Plain(ch.realm) && ch.realm != "" && Plain(ch.nonce) && ch.nonce != ""
    requires Plain(uri) && Plain(cnonce) && Plain(ch.algorithm) && ch.algorithm != "" && Trimmed(ch.algorithm)
    requires ch.opaqueText.Some? ==> Plain(ch.opaqueText.value)
    ensures var c := Answer(md5, user, password, ch, verb, uri, cnonce);
            ParseCredentials(CredentialsText(c, ch.opaqueText)) == Some(c)
  {
    hide ParseCredentials, CredentialsText, Plain, Find, Trimmed, Trim;
    TokensAreClean();
    CredentialsRead(Answer(md5, user, password, ch, verb, uri, cnonce), ch.opaqueText);
  }

  // ------------------------------------------------------------------
  // Counts
  // ------------------------------------------------------------------

  function HexChar(n: nat): char
    requires n < 16
  {
    if n < 10 then ('0' as int + n) as char else ('a' as int + (n - 10)) as char
  }

  /** The `width` low hexadecimal digits of `n`, as `{:08x}` prints them for 8. */
  function HexText(n: nat, width: nat): (s: string)
    ensures |s| == width
  {
    if width == 0 then "" else HexText(n / 16, width - 1) + [HexChar(n % 16)]
  }

  function Pow16(n: nat): (p: nat)
    ensures p >= 1
  {
    if n == 0 then 1 else 16 * Pow16(n - 1)
  }

  lemma {:induction false} HexReads(n: nat, width: nat)
    requires n < Pow16(width)
    ensures HexValue(HexText(n, width)) == Some(n)
    ensures forall i :: 0 <= i < width ==> HexDigit(HexText(n, width)[i]).Some?
  {
    if width > 0 {
      HexReads(n / 16, width - 1);
      var s := HexText(n, width);
      assert s[..width - 1] == HexText(n / 16, width - 1) && s[width - 1] == HexChar(n % 16);
    }
  }

  /** A nonce-count is read in hexadecimal: the eight digits a client prints for any 32-bit
      count are read back as that count. */
  lemma CountReads(n: nat)
    requires n < U32
    ensures ParseHex32(HexText(n, 8)) == Some(n)
  {
    hide HexText, HexValue;
    assert Pow16(8) == U32 by { assert Pow16(4) == 65536; }
    HexReads(n, 8);
    NoPlus(HexText(n, 8));
  }

  lemma NoPlus(s: string)
    requires s != "" && forall i :: 0 <= i < |s| ==> HexDigit(s[i]).Some?
    ensures s[0] != '+'
  {
  }

  // ------------------------------------------------------------------
  // Whom a new challenge displaces
  // ------------------------------------------------------------------

  ghost function IssuedWithin(nonces: map<string, NonceRecord>, age: nat, now: nat): set<string> {
    set n | n in nonces && now <= nonces[n].createdAt + age
  }

  /** A new challenge displaces nobody while fewer than 100000 are out; then the expired
      ones, then those older than half the lifetime, and all others only when even that
      leaves 100000. Whoever stays is left as it was. */
  lemma MintDisplaces(s: Auth, nonce: string, now: nat, other: string)
    requires other != nonce
    ensures other in Mint(s, nonce, now).nonces <==>
              other in s.nonces
              && (|s.nonces| < 100_000
                  || (&& now <= s.nonces[other].createdAt + 300
                      && (|IssuedWithin(s.nonces, 300, now)| < 100_000
                          || (&& now <= s.nonces[other].createdAt + 150
                              && |IssuedWithin(s.nonces, 150, now)| < 100_000))))
    ensures other in Mint(s, nonce, now).nonces ==> Mint(s, nonce, now).nonces[other] == s.nonces[other]
  {
    var a := Keep(s.nonces, now, TTL);
    var b := Keep(a, now, TTL / 2);
    assert a.Keys == IssuedWithin(s.nonces, 300, now);
    assert b.Keys == IssuedWithin(s.nonces, 150, now);
    assert |a| == |a.Keys| && |b| == |b.Keys|;
  }
}
