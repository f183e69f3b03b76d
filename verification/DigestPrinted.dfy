/** The Digest headers as they go on the wire, character by character. */
module DigestPrinted {
  import opened Prelude
  import opened Text
  import opened DigestText

  lemma {:induction false} JoinMore(ls: seq<string>, x: string)
    requires |ls| >= 1
    ensures Join(ls + [x], ",") == Join(ls, ",") + ("," + x)
  {
    if |ls| == 1 {
      assert (ls + [x])[1..] == [x];
    } else {
      assert (ls + [x])[1..] == ls[1..] + [x];
      JoinMore(ls[1..], x);
    }
  }

  /** One more field is one more comma, blank and field. */
  lemma HeaderMore(fields: seq<string>, f: string)
    requires |fields| >= 1
    ensures HeaderText(fields + [f]) == HeaderText(fields) + (", " + f)
  {
    assert Spaced(fields + [f]) == Spaced(fields) + [" " + f];
    JoinMore(Spaced(fields), " " + f);
    assert "," + (" " + f) == ", " + f;
  }

  lemma HeaderOne(f: string) ensures HeaderText([f]) == "Digest " + f { assert Spaced([f]) == [f]; }

  lemma NextQuoted(fields: seq<string>, front: string, key: string, v: string)
    requires |fields| >= 1 && front == ", " + key + "=\""
    ensures HeaderText(fields + [Quoted(key, v)]) == HeaderText(fields) + (front + v + "\"")
  {
    hide HeaderText;
    HeaderMore(fields, Quoted(key, v));
    assert ", " + Quoted(key, v) == front + v + "\"";
  }

  lemma NextBare(fields: seq<string>, front: string, key: string, v: string)
    requires |fields| >= 1 && front == ", " + key + "="
    ensures HeaderText(fields + [Bare(key, v)]) == HeaderText(fields) + (front + v)
  {
    hide HeaderText;
    HeaderMore(fields, Bare(key, v));
    assert ", " + Bare(key, v) == front + v;
  }

  lemma FirstQuoted(front: string, key: string, v: string)
    requires front == "Digest " + key + "=\""
    ensures HeaderText([Quoted(key, v)]) == front + v + "\""
  {
    hide HeaderText;
    HeaderOne(Quoted(key, v));
    assert "Digest " + Quoted(key, v) == front + v + "\"";
  }

  lemma ChallengeWords()
    ensures "Digest realm=\"" == "Digest " + "realm" + "=\"" && ", nonce=\"" == ", " + "nonce" + "=\""
    ensures ", algorithm=" == ", " + "algorithm" + "=" && ", qop=\"" == ", " + "qop" + "=\""
    ensures ", stale=" == ", " + "stale" + "="
  {
  }

  /** A challenge as it is printed. */
  lemma ChallengeIsPrinted(realm: string, nonce: string, stale: bool)
    ensures ChallengeText(realm, nonce, stale)
            == "Digest realm=\"" + realm + "\"" + (", nonce=\"" + nonce + "\"") + (", algorithm=" + "MD5")
               + (", qop=\"" + "auth" + "\"") + (if stale then ", stale=" + "true" else "")
  {
    hide HeaderText, Quoted, Bare;
    ChallengeWords();
    var a, b, c, d := Quoted("realm", realm), Quoted("nonce", nonce), Bare("algorithm", "MD5"), Quoted("qop", "auth");
    FirstQuoted("Digest realm=\"", "realm", realm);
    NextQuoted([a], ", nonce=\"", "nonce", nonce);
    NextBare([a] + [b], ", algorithm=", "algorithm", "MD5");
    NextQuoted([a] + [b] + [c], ", qop=\"", "qop", "auth");
    NextBare([a] + [b] + [c] + [d], ", stale=", "stale", "true");
    var all := HeaderText([a] + [b] + [c] + [d]);
    assert all + "" == all;
    assert ChallengeFields(realm, nonce, stale)
        == [a] + [b] + [c] + [d] + (if stale then [Bare("stale", "true")] else []);
    assert [a] + [b] + [c] + [d] + [] == [a] + [b] + [c] + [d];
  }

  lemma MandatoryWords()
    ensures "Digest username=\"" == "Digest " + "username" + "=\"" && ", realm=\"" == ", " + "realm" + "=\""
    ensures ", nonce=\"" == ", " + "nonce" + "=\"" && ", uri=\"" == ", " + "uri" + "=\""
    ensures ", response=\"" == ", " + "response" + "=\"" && ", algorithm=" == ", " + "algorithm" + "="
  {
  }

  lemma OptionalWords()
    ensures ", qop=" == ", " + "qop" + "=" && ", nc=" == ", " + "nc" + "="
    ensures ", cnonce=\"" == ", " + "cnonce" + "=\"" && ", opaque=\"" == ", " + "opaque" + "=\""
  {
  }

  function MandatoryFields(c: Credentials): seq<string> {
    [Quoted("username", c.username)] + [Quoted("realm", c.realm)] + [Quoted("nonce", c.nonce)] + [Quoted("uri", c.uri)]
    + [Quoted("response", c.response)] + [Bare("algorithm", c.algorithm)]
  }

  lemma MandatoryPrinted(c: Credentials)
    ensures HeaderText(MandatoryFields(c))
            == "Digest username=\"" + c.username + "\"" + (", realm=\"" + c.realm + "\"")
               + (", nonce=\"" + c.nonce + "\"") + (", uri=\"" + c.uri + "\"") + (", response=\"" + c.response + "\"")
               + (", algorithm=" + c.algorithm)
  {
    hide HeaderText, Quoted, Bare;
    MandatoryWords();
    var u, r, n, i := Quoted("username", c.username), Quoted("realm", c.realm), Quoted("nonce", c.nonce),
                      Quoted("uri", c.uri);
    FirstQuoted("Digest username=\"", "username", c.username);
    NextQuoted([u], ", realm=\"", "realm", c.realm);
    NextQuoted([u] + [r], ", nonce=\"", "nonce", c.nonce);
    NextQuoted([u] + [r] + [n], ", uri=\"", "uri", c.uri);
    NextQuoted([u] + [r] + [n] + [i], ", response=\"", "response", c.response);
    NextBare([u] + [r] + [n] + [i] + [Quoted("response", c.response)], ", algorithm=", "algorithm", c.algorithm);
  }

  /** Credentials as they are printed: the qop values only when all three are there. */
  lemma CredentialsArePrinted(c: Credentials, opaqueText: Option<string>)
    ensures CredentialsText(c, opaqueText)
            == "Digest username=\"" + c.username + "\"" + (", realm=\"" + c.realm + "\"")
               + (", nonce=\"" + c.nonce + "\"") + (", uri=\"" + c.uri + "\"") + (", response=\"" + c.response + "\"")
               + (", algorithm=" + c.algorithm)
               + (if c.qop.Some? && c.nc.Some? && c.cnonce.Some? then
                    (", qop=" + c.qop.value) + (", nc=" + c.nc.value) + (", cnonce=\"" + c.cnonce.value + "\"") else "")
               + (if opaqueText.Some? then ", opaque=\"" + opaqueText.value + "\"" else "")
  {
    hide HeaderText, Quoted, Bare, MandatoryFields;
    OptionalWords();
    MandatoryPrinted(c);
    var m := MandatoryFields(c);
    AtLeastOne(c);
    var text := HeaderText(m);
    var fields := m;
    if c.qop.Some? && c.nc.Some? && c.cnonce.Some? {
      var q, n := Bare("qop", c.qop.value), Bare("nc", c.nc.value);
      NextBare(m, ", qop=", "qop", c.qop.value);
      NextBare(m + [q], ", nc=", "nc", c.nc.value);
      NextQuoted(m + [q] + [n], ", cnonce=\"", "cnonce", c.cnonce.value);
      var x, y, z := ", qop=" + c.qop.value, ", nc=" + c.nc.value, ", cnonce=\"" + c.cnonce.value + "\"";
      ThreeParts(text, x, y);
      ThreeParts(text, x + y, z);
      fields := m + [q] + [n] + [Quoted("cnonce", c.cnonce.value)];
      text := text + (x + y + z);
    } else {
      assert text + "" == text;
    }
    assert HeaderText(fields) == text;
    FieldsInOrder(c, opaqueText);
    if opaqueText.Some? {
      NextQuoted(fields, ", opaque=\"", "opaque", opaqueText.value);
    } else {
      assert text + "" == text && fields + [] == fields;
    }
  }

  lemma AtLeastOne(c: Credentials) ensures |MandatoryFields(c)| >= 1 {}

  lemma FieldsInOrder(c: Credentials, opaqueText: Option<string>)
    ensures CredentialFields(c, opaqueText) ==
              MandatoryFields(c)
              + (if c.qop.Some? && c.nc.Some? && c.cnonce.Some? then
                   [Bare("qop", c.qop.value)] + [Bare("nc", c.nc.value)] + [Quoted("cnonce", c.cnonce.value)] else [])
              + (if opaqueText.Some? then [Quoted("opaque", opaqueText.value)] else [])
    ensures c.qop.Some? && c.nc.Some? && c.cnonce.Some? ==>
              MandatoryFields(c) + ([Bare("qop", c.qop.value)] + [Bare("nc", c.nc.value)]
                                    + [Quoted("cnonce", c.cnonce.value)])
              == MandatoryFields(c) + [Bare("qop", c.qop.value)] + [Bare("nc", c.nc.value)]
                 + [Quoted("cnonce", c.cnonce.value)]
    ensures MandatoryFields(c) + [] == MandatoryFields(c)
  {
    hide Bare, Quoted;
  }
}
