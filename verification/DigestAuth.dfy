/** The Digest authenticator of `auth.rs`, as values: the nonce table, verification
    with replay protection (sections 3.3 and 3.4 of RFC 7616), and the client half
    that answers challenges. MD5 is any function from text to text. */
module DigestAuth {
  import opened Prelude
  import opened Text
  import opened DigestText

  type Md5 = string -> string

  const TTL := 300
  const MAX_NONCES := 100_000
  const DUMMY_HA1 := "00000000000000000000000000000000"

  // ------------------------------------------------------------------
  // Digests
  // ------------------------------------------------------------------

  function Ha1(md5: Md5, user: string, realm: string, password: string): string {
    md5(user + ":" + realm + ":" + password)
  }

  function Ha2(md5: Md5, verb: string, uri: string): string { md5(verb + ":" + uri) }

  function PlainResponse(md5: Md5, ha1: string, nonce: string, ha2: string): string {
    md5(ha1 + ":" + nonce + ":" + ha2)
  }

  function AuthResponse(md5: Md5, ha1: string, nonce: string, nc: string, cnonce: string, ha2: string): string {
    md5(ha1 + ":" + nonce + ":" + nc + ":" + cnonce + ":auth:" + ha2)
  }

  /** `u32::from_str_radix(_, 16)`. */
  function HexDigit(c: char): Option<nat> {
    if '0' <= c <= '9' then Some(c as int - '0' as int)
    else if 'a' <= c <= 'f' then Some(c as int - 'a' as int + 10)
    else if 'A' <= c <= 'F' then Some(c as int - 'A' as int + 10)
    else None
  }

  function HexValue(s: string): Option<nat> {
    if s == "" then Some(0)
    else
      var hi := HexValue(s[..|s| - 1]);
      var lo := HexDigit(s[|s| - 1]);
      if hi.None? || lo.None? then None else Some(16 * hi.value + lo.value)
  }

  function ParseHex32(s: string): (r: Option<nat>)
    ensures r.Some? ==> r.value < U32
  {
    var d := if s != "" && s[0] == '+' then s[1..] else s;
    var v := HexValue(d);
    if d != "" && v.Some? && v.value < U32 then v else None
  }

  // ------------------------------------------------------------------
  // Server half
  // ------------------------------------------------------------------

  datatype NonceRecord = NonceRecord(createdAt: nat, useCount: nat, lastNc: nat, lastFingerprint: Option<nat>)

  datatype Auth = Auth(realm: string, nonces: map<string, NonceRecord>, users: map<string, string>)

  datatype Verdict = Accepted(user: string) | StaleNonce | Replay | BadCredentials | UnknownUser | Malformed

  predicate Fresh(r: NonceRecord, now: nat, age: nat) { SatSub(now, r.createdAt) <= age }

  function Keep(m: map<string, NonceRecord>, now: nat, age: nat): map<string, NonceRecord> {
    map n | n in m && Fresh(m[n], now, age) :: m[n]
  }

  /** Room for one more challenge: drop the expired, then the older half, then all. */
  function MakeRoom(m: map<string, NonceRecord>, now: nat): map<string, NonceRecord> {
    if |m| < MAX_NONCES then m
    else
      var a := Keep(m, now, TTL);
      var b := if |a| >= MAX_NONCES then Keep(a, now, TTL / 2) else a;
      if |b| >= MAX_NONCES then map[] else b
  }

  /** `generate_challenge_with`, the random nonce being an input. */
  function Mint(s: Auth, nonce: string, now: nat): Auth {
    s.(nonces := MakeRoom(s.nonces, now)[nonce := NonceRecord(now, 0, 0, None)])
  }

  function CleanupNonces(s: Auth, now: nat): Auth { s.(nonces := Keep(s.nonces, now, TTL)) }

  predicate QopAuth(c: Credentials) { c.qop == Some("auth") }

  predicate DigestOk(md5: Md5, s: Auth, c: Credentials, verb: string) {
    && c.username in s.users
    && var ha1 := s.users[c.username];
       var ha2 := Ha2(md5, verb, c.uri);
       c.response == if QopAuth(c) then AuthResponse(md5, ha1, c.nonce, Or(c.nc, "00000001"), Or(c.cnonce, ""), ha2)
                     else PlainResponse(md5, ha1, c.nonce, ha2)
  }

  /** The nonce-count a qop request presents. */
  function NonceCount(c: Credentials): Option<nat> {
    if c.nc.None? then None else ParseHex32(Trim(c.nc.value))
  }

  /** May a request with these credentials use this record once more? */
  function Replayed(r: NonceRecord, c: Credentials, fp: Option<nat>): Option<Verdict> {
    if QopAuth(c) then
      var nc := NonceCount(c);
      if nc.None? then Some(StaleNonce)
      else if nc.value > r.lastNc then None
      else if nc.value == r.lastNc && fp.Some? && fp == r.lastFingerprint then None
      else Some(Replay)
    else if r.useCount > 0 then Some(StaleNonce)
    else None
  }

  function Used(r: NonceRecord, c: Credentials, fp: Option<nat>): NonceRecord {
    var r1 := r.(useCount := (r.useCount + 1) % U32);
    if QopAuth(c) && NonceCount(c).Some? && NonceCount(c).value > r.lastNc
    then r1.(lastNc := NonceCount(c).value, lastFingerprint := fp) else r1
  }

  function Failure(md5: Md5, s: Auth, c: Credentials, verb: string): Verdict {
    if DigestOk(md5, s, c, verb) then StaleNonce
    else if c.username !in s.users then UnknownUser
    else BadCredentials
  }

  /** `verify_with` on parsed credentials. */
  function Verify(md5: Md5, s: Auth, c: Credentials, verb: string, fp: Option<nat>, now: nat): (Auth, Verdict) {
    if c.nonce !in s.nonces then (s, StaleNonce)
    else
      var r := s.nonces[c.nonce];
      if !Fresh(r, now, TTL) then (s.(nonces := s.nonces - {c.nonce}), Failure(md5, s, c, verb))
      else if !DigestOk(md5, s, c, verb) then (s, Failure(md5, s, c, verb))
      else
        var refused := Replayed(r, c, fp);
        if refused.Some? then (s, refused.value)
        else (s.(nonces := s.nonces[c.nonce := Used(r, c, fp)]), Accepted(c.username))
  }

  function VerifyHeader(md5: Md5, s: Auth, header: string, verb: string, fp: Option<nat>, now: nat): (Auth, Verdict) {
    match ParseCredentials(header)
    case None => (s, Malformed)
    case Some(c) => Verify(md5, s, c, verb, fp, now)
  }

  // ------------------------------------------------------------------
  // Client half
  // ------------------------------------------------------------------

  const FIRST_NC := "00000001"

  /** The credentials `generate_digest_response` answers a challenge with. */
  function Answer(md5: Md5, user: string, password: string, ch: Challenge, verb: string, uri: string,
                  cnonce: string): Credentials {
    var ha1 := Ha1(md5, user, ch.realm, password);
    var ha2 := Ha2(md5, verb, uri);
    if ch.qop.Some? && Find(ch.qop.value, "auth").Some? then
      Credentials(user, ch.realm, ch.nonce, uri, AuthResponse(md5, ha1, ch.nonce, FIRST_NC, cnonce, ha2), ch.algorithm,
                  Some("auth"), Some(FIRST_NC), Some(cnonce))
    else
      Credentials(user, ch.realm, ch.nonce, uri, PlainResponse(md5, ha1, ch.nonce, ha2), ch.algorithm, None, None, None)
  }

  function AnswerText(md5: Md5, user: string, password: string, ch: Challenge, verb: string, uri: string,
                      cnonce: string): string {
    CredentialsText(Answer(md5, user, password, ch, verb, uri, cnonce), ch.opaqueText)
  }

  // ------------------------------------------------------------------
  // The two halves agree
  // ------------------------------------------------------------------

  lemma FirstNonceCount()
    ensures ParseHex32(FIRST_NC) == Some(1)
  {
    hide Zeros;
    ZeroDigits(7);
    var s := FIRST_NC;
    assert |s| == 8 && s[7] == '1' && s[0] == '0';
    assert s[..7] == Zeros(7);
  }

  lemma TokensAreClean()
    ensures Trim(FIRST_NC) == FIRST_NC && Plain(FIRST_NC) && Trimmed(FIRST_NC)
    ensures Plain("auth") && Plain("MD5") && Trimmed("auth") && Trimmed("MD5")
  {
    hide Trim;
    TrimIsTrimmed(FIRST_NC);
  }

  lemma AuthFound() ensures Find("auth", "auth").Some? {}

  function Zeros(n: nat): string { if n == 0 then "" else Zeros(n - 1) + "0" }

  lemma {:induction false} ZeroDigits(n: nat)
    ensures |Zeros(n)| == n && (forall i :: 0 <= i < n ==> Zeros(n)[i] == '0') && HexValue(Zeros(n)) == Some(0)
  {
    if n > 0 {
      ZeroDigits(n - 1);
      assert Zeros(n)[..n - 1] == Zeros(n - 1);
    }
  }

  /** Digests that can travel in a header, as hexadecimal ones do. */
  ghost predicate Printable(md5: Md5) { forall s: string :: md5(s) != "" && Plain(md5(s)) }

  /** For every realm, user and URI that is plain (no comma, no quote at an end; realm
      and user not empty) and every password: the challenge the server prints, read
      by the client, answered with the stored password and verified within the
      lifetime of a nonce not used yet, is accepted as that user. */
  lemma {:induction false} HalvesAgree(md5: Md5, s: Auth, user: string, password: string, nonce: string, stale: bool,
                                       verb: string, uri: string, cnonce: string, fp: Option<nat>, now: nat)
    requires Printable(md5)
    requires Plain(s.realm) && s.realm != "" && Plain(user) && user != "" && Plain(uri)
    requires Plain(nonce) && nonce != "" && Plain(cnonce)
    requires user in s.users && s.users[user] == md5(user + ":" + s.realm + ":" + password)
    requires nonce in s.nonces && s.nonces[nonce].lastNc == 0 && now <= s.nonces[nonce].createdAt + 300
    ensures var ch := ParseChallenge(ChallengeText(s.realm, nonce, stale));
            && ch.Some?
            && VerifyHeader(md5, s, AnswerText(md5, user, password, ch.value, verb, uri, cnonce), verb, fp, now).1
               == Accepted(user)
  {
    hide ParseChallenge, ChallengeText, ParseCredentials, CredentialsText, Plain, Find, Trim, Trimmed, ParseHex32,
      Ha2, AuthResponse, PlainResponse;
    ChallengeReads(s.realm, nonce, stale);
    FirstNonceCount();
    TokensAreClean();
    AuthFound();
    var ch := Challenge(s.realm, nonce, "MD5", Some("auth"), None);
    var c := Answer(md5, user, password, ch, verb, uri, cnonce);
    assert c.response == AuthResponse(md5, Ha1(md5, user, s.realm, password), nonce, FIRST_NC, cnonce,
                                      Ha2(md5, verb, uri));
    ResponsePrintable(md5, Ha1(md5, user, s.realm, password), nonce, FIRST_NC, cnonce, Ha2(md5, verb, uri));
    CredentialsRead(c, None);
  }

  lemma ResponsePrintable(md5: Md5, ha1: string, nonce: string, nc: string, cnonce: string, ha2: string)
    requires Printable(md5)
    ensures AuthResponse(md5, ha1, nonce, nc, cnonce, ha2) != ""
            && Plain(AuthResponse(md5, ha1, nonce, nc, cnonce, ha2))
  {
    hide Plain;
  }

  /** The same from the server's side: a challenge minted in any state is good for the
      whole lifetime of its nonce. */
  lemma FreshChallengeIsAccepted(md5: Md5, s: Auth, user: string, password: string, nonce: string, stale: bool,
                                 issued: nat, verb: string, uri: string, cnonce: string, fp: Option<nat>, now: nat)
    requires Printable(md5)
    requires Plain(s.realm) && s.realm != "" && Plain(user) && user != "" && Plain(uri)
    requires Plain(nonce) && nonce != "" && Plain(cnonce)
    requires user in s.users && s.users[user] == md5(user + ":" + s.realm + ":" + password)
    requires now <= issued + 300
    ensures var ch := ParseChallenge(ChallengeText(s.realm, nonce, stale));
            && ch.Some?
            && VerifyHeader(md5, Mint(s, nonce, issued), AnswerText(md5, user, password, ch.value, verb, uri, cnonce),
                            verb, fp, now).1
               == Accepted(user)
  {
    hide ParseChallenge, ChallengeText, VerifyHeader, AnswerText, Plain, MakeRoom;
    HalvesAgree(md5, Mint(s, nonce, issued), user, password, nonce, stale, verb, uri, cnonce, fp, now);
  }
}
