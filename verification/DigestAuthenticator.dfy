/** The mutable authenticator of `auth.rs`. Every object carries the run that led to it,
    so the replay theorems hold of the object. Random nonces, the clock and MD5 are
    inputs. */
module DigestAuthenticator {
  import opened Prelude
  import opened Text
  import opened DigestText
  import opened DigestAuth
  import opened DigestRuns
  import opened DigestVerdicts

  lemma RunSnoc(md5: Md5, s: Auth, evs: seq<Event>, e: Event)
    ensures Run(md5, s, evs + [e]) == Next(md5, Run(md5, s, evs), e)
    ensures Log(md5, s, evs + [e]) == Log(md5, s, evs) + Entries(md5, Run(md5, s, evs), e)
  {
    hide Next, Entries;
    assert (evs + [e])[..|evs|] == evs;
  }

  class Authenticator {
    const md5: Md5
    const realm: string
    var nonces: map<string, NonceRecord>
    var users: map<string, string>
    ghost const initial: Auth
    ghost var trace: seq<Event>

    function View(): Auth
      reads this
    {
      Auth(realm, nonces, users)
    }

    /** The object is what its run made of an authenticator without nonces. */
    ghost predicate Valid()
      reads this
    {
      initial.nonces == map[] && View() == Run(md5, initial, trace)
    }

    /** Every nonce issued and every request accepted so far. */
    ghost function Hist(): seq<Entry>
      reads this
    {
      Log(md5, initial, trace)
    }

    constructor (md5: Md5, realm: string, users: map<string, string>)
      ensures Valid() && Hist() == [] && View() == Auth(realm, map[], users)
    {
      this.md5, this.realm, this.nonces, this.users := md5, realm, map[], users;
      initial, trace := Auth(realm, map[], users), [];
    }

    ghost method Did(e: Event)
      modifies this`trace
      ensures trace == old(trace) + [e] && View() == old(View())
      ensures Run(md5, initial, trace) == Next(md5, Run(md5, initial, old(trace)), e)
      ensures Hist() == old(Hist()) + Entries(md5, Run(md5, initial, old(trace)), e)
    {
      hide Run, Log, Next, Entries;
      RunSnoc(md5, initial, trace, e);
      trace := trace + [e];
    }

    /** A challenge with a nonce that is good from now on; the table stays within its cap. */
    method GenerateChallengeWith(nonce: string, stale: bool, now: nat) returns (text: string)
      requires Valid()
      modifies this
      ensures Valid() && trace == old(trace) + [EMint(nonce, now)]
      ensures Hist() == old(Hist()) + [Issued(nonce, now)]
      ensures nonce in nonces && nonces[nonce] == NonceRecord(now, 0, 0, None) && |nonces| <= 100_000
      ensures text == ChallengeText(realm, nonce, stale)
    {
      hide Run, Log, Keep, ChallengeText;
      if |nonces| >= MAX_NONCES {
        nonces := Keep(nonces, now, TTL);
        if |nonces| >= MAX_NONCES { nonces := Keep(nonces, now, TTL / 2); }
        if |nonces| >= MAX_NONCES { nonces := map[]; }
      }
      nonces := nonces[nonce := NonceRecord(now, 0, 0, None)];
      text := ChallengeText(realm, nonce, stale);
      Did(EMint(nonce, now));
      TableBounded(md5, initial, trace);
    }

    /** What is accepted comes from a known user with the right digest, in time, and is no
        replay of anything accepted before; what is refused is refused for what it is. */
    method VerifyWith(header: string, verb: string, fp: Option<nat>, now: nat) returns (v: Verdict)
      requires Valid()
      modifies this
      ensures Valid() && trace == old(trace) + [EVerify(header, verb, fp, now)]
      ensures v == VerifyHeader(md5, old(View()), header, verb, fp, now).1
      ensures match ParseCredentials(header)
              case None => v == Malformed && View() == old(View())
              case Some(c) => Justified(md5, old(View()), c, verb, now, View(), v)
      ensures v.Accepted? ==>
                && ParseCredentials(header).Some?
                && var c := ParseCredentials(header).value;
                && Hist() == old(Hist()) + [Spent(c.nonce, CountOf(c), fp, now)]
      ensures !v.Accepted? ==> Hist() == old(Hist())
      ensures NeverReissued(Hist()) && FewUses(Hist()) ==> NoReplay(Hist()) && InTime(Hist())
      ensures |nonces| <= 100_000
    {
      hide Run, Log, ParseCredentials, Verify, NoReplay, InTime, NeverReissued, FewUses, Justified;
      VerdictIsJustified(md5, View(), header, verb, fp, now);
      var parsed := ReadCredentials(header);
      if parsed.None? {
        v := Malformed;
      } else {
        v := VerifyParsed(parsed.value, verb, fp, now);
      }
      Did(EVerify(header, verb, fp, now));
      assert old(Hist()) + [] == old(Hist());
      if NeverReissued(Hist()) && FewUses(Hist()) { ReplaySafe(md5, initial, trace); }
      TableBounded(md5, initial, trace);
    }

    /** The digest first, then the nonce, then the replay rule. */
    method VerifyParsed(c: Credentials, verb: string, fp: Option<nat>, now: nat) returns (v: Verdict)
      modifies this`nonces
      ensures (View(), v) == Verify(md5, old(View()), c, verb, fp, now)
    {
      hide Ha2, AuthResponse, PlainResponse, NonceCount;
      var known := c.username in users;
      var ha1 := if known then users[c.username] else DUMMY_HA1;
      var ha2 := Ha2(md5, verb, c.uri);
      var expected := if QopAuth(c) then AuthResponse(md5, ha1, c.nonce, Or(c.nc, "00000001"), Or(c.cnonce, ""), ha2)
                      else PlainResponse(md5, ha1, c.nonce, ha2);
      var digestOk := known && expected == c.response;
      assert digestOk == DigestOk(md5, View(), c, verb);
      if c.nonce !in nonces { return StaleNonce; }
      var r := nonces[c.nonce];
      if SatSub(now, r.createdAt) > TTL {
        nonces := nonces - {c.nonce};
        if digestOk { return StaleNonce; } else if !known { return UnknownUser; } else { return BadCredentials; }
      }
      if !known { return UnknownUser; }
      if !digestOk { return BadCredentials; }
      if QopAuth(c) {
        var nc := NonceCount(c);
        if nc.None? { return StaleNonce; }
        if nc.value > r.lastNc {
          r := r.(lastNc := nc.value, lastFingerprint := fp);
        } else if !(nc.value == r.lastNc && fp.Some? && fp == r.lastFingerprint) {
          return Replay;
        }
      } else if r.useCount > 0 {
        return StaleNonce;
      }
      r := r.(useCount := (r.useCount + 1) % U32);
      nonces := nonces[c.nonce := r];
      return Accepted(c.username);
    }

    /** Exactly the nonces past their lifetime go. */
    method Cleanup(now: nat) returns (removed: nat)
      requires Valid()
      modifies this
      ensures Valid() && trace == old(trace) + [ECleanup(now)] && Hist() == old(Hist())
      ensures forall n :: n in nonces <==> n in old(nonces) && SatSub(now, old(nonces)[n].createdAt) <= 300
      ensures forall n :: n in nonces ==> nonces[n] == old(nonces)[n]
      ensures removed == |old(nonces)| - |nonces|
    {
      hide Run, Log;
      var before := |nonces|;
      KeepSmaller(nonces, now, TTL);
      nonces := Keep(nonces, now, TTL);
      removed := before - |nonces|;
      Did(ECleanup(now));
      assert old(Hist()) + [] == old(Hist());
    }

    /** A reload of the users leaves every nonce and its use as it is. */
    method SetUsers(renewed: map<string, string>)
      requires Valid()
      modifies this
      ensures Valid() && trace == old(trace) + [ESetUsers(renewed)] && Hist() == old(Hist())
      ensures users == renewed && nonces == old(nonces)
    {
      hide Run, Log;
      users := renewed;
      Did(ESetUsers(renewed));
      assert old(Hist()) + [] == old(Hist());
    }
  }
}
