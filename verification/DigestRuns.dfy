/** Replay protection over whole runs of the authenticator. */
module DigestRuns {
  import opened Prelude
  import opened DigestText
  import opened DigestAuth
  import opened DigestVerdicts
  import opened Text

  datatype Event =
    | EMint(nonce: string, now: nat)
    | EVerify(header: string, verb: string, fp: Option<nat>, now: nat)
    | ECleanup(now: nat)
    | ESetUsers(users: map<string, string>)

  /** What is issued and what is accepted, in order. `count` is the nonce-count of a
      qop request, None for a request without qop. */
  datatype Entry =
    | Issued(nonce: string, at: nat)
    | Spent(nonce: string, count: Option<nat>, fp: Option<nat>, at: nat)

  function Next(md5: Md5, s: Auth, e: Event): Auth {
    match e
    case EMint(nonce, now) => Mint(s, nonce, now)
    case EVerify(header, verb, fp, now) => VerifyHeader(md5, s, header, verb, fp, now).0
    case ECleanup(now) => CleanupNonces(s, now)
    case ESetUsers(users) => s.(users := users)
  }

  function CountOf(c: Credentials): Option<nat> { if QopAuth(c) then NonceCount(c) else None }

  function Entries(md5: Md5, s: Auth, e: Event): seq<Entry> {
    match e
    case EMint(nonce, now) => [Issued(nonce, now)]
    case EVerify(header, verb, fp, now) =>
      if VerifyHeader(md5, s, header, verb, fp, now).1.Accepted? then
        var c := ParseCredentials(header).value;
        [Spent(c.nonce, CountOf(c), fp, now)]
      else []
    case _ => []
  }

  function Run(md5: Md5, s: Auth, evs: seq<Event>): Auth {
    if evs == [] then s else Next(md5, Run(md5, s, evs[..|evs| - 1]), evs[|evs| - 1])
  }

  function Log(md5: Md5, s: Auth, evs: seq<Event>): seq<Entry> {
    if evs == [] then []
    else Log(md5, s, evs[..|evs| - 1]) + Entries(md5, Run(md5, s, evs[..|evs| - 1]), evs[|evs| - 1])
  }

  /** Random nonces never repeat. */
  ghost predicate NeverReissued(log: seq<Entry>) {
    forall i, j :: 0 <= i < j < |log| && log[i].Issued? && log[j].Issued? ==> log[i].nonce != log[j].nonce
  }

  predicate UseOf(x: Entry, nonce: string) { x.Spent? && x.nonce == nonce }

  /** Uses of a nonce in the log. */
  function Uses(log: seq<Entry>, nonce: string): nat {
    if log == [] then 0 else Uses(log[..|log| - 1], nonce) + if UseOf(log[|log| - 1], nonce) then 1 else 0
  }

  /** Two accepted requests in this order, on the same nonce: the second has a count,
      counts never fall, and equal counts carry the same present fingerprint. */
  predicate Compatible(x: Entry, y: Entry) {
    x.Spent? && UseOf(y, x.nonce) ==>
      && y.count.Some?
      && (x.count.Some? ==>
            && x.count.value <= y.count.value
            && (x.count == y.count ==> x.fp.Some? && x.fp == y.fp))
  }

  predicate CountsFromOne(x: Entry) { x.Spent? && x.count.Some? ==> x.count.value >= 1 }

  /** No accepted request is a replay. In particular a request without qop is the first
      use of its nonce, since every later one has a count. */
  ghost predicate NoReplay(log: seq<Entry>) {
    && (forall i :: 0 <= i < |log| ==> CountsFromOne(log[i]))
    && (forall i, j :: 0 <= i < j < |log| ==> Compatible(log[i], log[j]))
  }

  /** The use at `j` is of a nonce issued before, within its lifetime. */
  ghost predicate InTimeAt(log: seq<Entry>, j: nat)
    requires j < |log|
  {
    log[j].Spent? ==>
      exists i :: 0 <= i < j && log[i].Issued? && log[i].nonce == log[j].nonce && SatSub(log[j].at, log[i].at) <= 300
  }

  ghost predicate InTime(log: seq<Entry>) { forall j :: 0 <= j < |log| ==> InTimeAt(log, j) }

  /** The record of a nonce sums up its uses so far. */
  ghost predicate RecordOk(r: NonceRecord, nonce: string, log: seq<Entry>) {
    && Issued(nonce, r.createdAt) in log
    && r.useCount == Uses(log, nonce) % U32
    && (forall x :: x in log && UseOf(x, nonce) && x.count.Some? ==>
          x.count.value <= r.lastNc && (x.count.value == r.lastNc ==> x.fp == r.lastFingerprint))
    && (r.lastNc == 0 ==> r.lastFingerprint.None?)
    && (r.lastNc > 0 ==> exists x :: x in log && IsLastUse(x, nonce, r))
  }

  /** The use a record remembers. */
  predicate IsLastUse(x: Entry, nonce: string, r: NonceRecord) {
    UseOf(x, nonce) && x.count == Some(r.lastNc) && x.fp == r.lastFingerprint
  }

  ghost predicate Inv(s: Auth, log: seq<Entry>) {
    && (forall n :: n in s.nonces ==> RecordOk(s.nonces[n], n, log))
    && |s.nonces| <= MAX_NONCES
    && NoReplay(log) && InTime(log)
  }

  /** No single nonce is used 2^32 times (the use counter is a `u32`). */
  ghost predicate FewUses(log: seq<Entry>) { forall n :: Uses(log, n) < U32 }

  // ------------------------------------------------------------------
  // Table size
  // ------------------------------------------------------------------

  lemma KeepSmaller(m: map<string, NonceRecord>, now: nat, age: nat)
    ensures |Keep(m, now, age)| <= |m| && Keep(m, now, age).Keys <= m.Keys
    ensures forall n :: n in Keep(m, now, age) ==> Keep(m, now, age)[n] == m[n]
  {
    SubsetSize(Keep(m, now, age).Keys, m.Keys);
  }

  lemma RoomMade(m: map<string, NonceRecord>, now: nat)
    requires |m| <= MAX_NONCES
    ensures |MakeRoom(m, now)| < MAX_NONCES && MakeRoom(m, now).Keys <= m.Keys
    ensures forall n :: n in MakeRoom(m, now) ==> MakeRoom(m, now)[n] == m[n]
  {
    hide Keep;
    KeepSmaller(m, now, TTL);
    KeepSmaller(Keep(m, now, TTL), now, TTL / 2);
  }

  // ------------------------------------------------------------------
  // One step
  // ------------------------------------------------------------------

  lemma {:induction false} UsesPositive(log: seq<Entry>, nonce: string)
    ensures Uses(log, nonce) <= |log|
    ensures Uses(log, nonce) == 0 <==> forall x :: x in log ==> !UseOf(x, nonce)
  {
    if log != [] {
      UsesPositive(log[..|log| - 1], nonce);
      assert log == log[..|log| - 1] + [log[|log| - 1]];
    }
  }

  lemma UsesAppend(log: seq<Entry>, x: Entry, nonce: string)
    ensures Uses(log + [x], nonce) == Uses(log, nonce) + if UseOf(x, nonce) then 1 else 0
  {
    assert (log + [x])[..|log|] == log;
  }

  lemma NoReplayAppend(log: seq<Entry>, x: Entry)
    requires NoReplay(log) && CountsFromOne(x) && forall y :: y in log ==> Compatible(y, x)
    ensures NoReplay(log + [x])
  {
    hide Compatible, CountsFromOne;
  }

  lemma InTimeAppend(log: seq<Entry>, x: Entry)
    requires InTime(log)
    requires x.Spent? ==> exists t :: Issued(x.nonce, t) in log && SatSub(x.at, t) <= TTL
    ensures InTime(log + [x])
  {
    var l := log + [x];
    forall j | 0 <= j < |l| ensures InTimeAt(l, j) {
      if j < |log| {
        assert InTimeAt(log, j);
        if log[j].Spent? {
          var i :| 0 <= i < j && log[i].Issued? && log[i].nonce == log[j].nonce && SatSub(log[j].at, log[i].at) <= 300;
          assert l[i] == log[i];
        }
      } else if x.Spent? {
        var t :| Issued(x.nonce, t) in log && SatSub(x.at, t) <= TTL;
        var i :| 0 <= i < |log| && log[i] == Issued(x.nonce, t);
        assert l[i] == log[i];
      }
    }
  }

  lemma {:induction false} StepMint(s: Auth, log: seq<Entry>, nonce: string, now: nat)
    requires Inv(s, log) && forall x :: x in log && x.Issued? ==> x.nonce != nonce
    ensures Inv(Mint(s, nonce, now), log + [Issued(nonce, now)])
  {
    hide MakeRoom, NoReplay, InTime, Uses, RecordOk;
    var x := Issued(nonce, now);
    var l := log + [x];
    RoomMade(s.nonces, now);
    var m := MakeRoom(s.nonces, now);
    var s' := Mint(s, nonce, now);
    assert s'.nonces.Keys == m.Keys + {nonce};
    assert CountsFromOne(x) && forall y :: y in log ==> Compatible(y, x);
    NoReplayAppend(log, x);
    InTimeAppend(log, x);
    forall n | n in s'.nonces ensures RecordOk(s'.nonces[n], n, l) {
      if n == nonce {
        NewRecordOk(log, nonce, now);
      } else {
        OtherRecordOk(s.nonces[n], n, log, x);
      }
    }
  }

  lemma NewRecordOk(log: seq<Entry>, nonce: string, now: nat)
    requires InTime(log) && forall x :: x in log && x.Issued? ==> x.nonce != nonce
    ensures RecordOk(NonceRecord(now, 0, 0, None), nonce, log + [Issued(nonce, now)])
  {
    hide Uses, InTime;
    UsesAppend(log, Issued(nonce, now), nonce);
    NotIssuedNotUsed(log, nonce);
    UsesPositive(log, nonce);
  }

  lemma OtherRecordOk(r: NonceRecord, n: string, log: seq<Entry>, x: Entry)
    requires RecordOk(r, n, log) && x.nonce != n
    ensures RecordOk(r, n, log + [x])
  {
    hide Uses;
    UsesAppend(log, x, n);
    if r.lastNc > 0 {
      var y :| y in log && IsLastUse(y, n, r);
      assert y in log + [x];
    }
  }

  lemma NotIssuedNotUsed(log: seq<Entry>, nonce: string)
    requires InTime(log) && forall x :: x in log && x.Issued? ==> x.nonce != nonce
    ensures forall x :: x in log ==> !UseOf(x, nonce)
  {
    forall x | x in log ensures !UseOf(x, nonce) {
      var j :| 0 <= j < |log| && log[j] == x;
      assert InTimeAt(log, j);
      if x.Spent? {
        var i :| 0 <= i < j && log[i].Issued? && log[i].nonce == log[j].nonce && SatSub(log[j].at, log[i].at) <= 300;
        assert log[i] in log;
      }
    }
  }

  /** What a record that lets a request through says about the uses before it. */
  lemma RecordGuards(r: NonceRecord, c: Credentials, fp: Option<nat>, log: seq<Entry>, now: nat)
    requires RecordOk(r, c.nonce, log) && Replayed(r, c, fp).None? && Uses(log, c.nonce) < U32
    ensures var x := Spent(c.nonce, CountOf(c), fp, now);
            CountsFromOne(x) && forall y :: y in log ==> Compatible(y, x)
  {
    hide NonceCount, Uses;
    UsesPositive(log, c.nonce);
    assert Uses(log, c.nonce) % U32 == Uses(log, c.nonce);
  }

  lemma UsedRecordOk(r: NonceRecord, c: Credentials, fp: Option<nat>, log: seq<Entry>, now: nat)
    requires RecordOk(r, c.nonce, log) && Replayed(r, c, fp).None?
    ensures RecordOk(Used(r, c, fp), c.nonce, log + [Spent(c.nonce, CountOf(c), fp, now)])
  {
    hide NonceCount, Uses;
    var x, r' := Spent(c.nonce, CountOf(c), fp, now), Used(r, c, fp);
    UsesAppend(log, x, c.nonce);
    if r'.lastNc > r.lastNc {
      assert x in log + [x] && IsLastUse(x, c.nonce, r');
    } else if r.lastNc > 0 {
      var y :| y in log && IsLastUse(y, c.nonce, r);
      assert y in log + [x] && IsLastUse(y, c.nonce, r');
    }
    assert (Uses(log, c.nonce) % U32 + 1) % U32 == (Uses(log, c.nonce) + 1) % U32;
  }

  lemma {:induction false} StepUse(s: Auth, log: seq<Entry>, c: Credentials, fp: Option<nat>, now: nat)
    requires Inv(s, log) && c.nonce in s.nonces && Fresh(s.nonces[c.nonce], now, TTL)
    requires Replayed(s.nonces[c.nonce], c, fp).None? && Uses(log, c.nonce) < U32
    ensures var r := s.nonces[c.nonce];
            Inv(s.(nonces := s.nonces[c.nonce := Used(r, c, fp)]), log + [Spent(c.nonce, CountOf(c), fp, now)])
  {
    hide NoReplay, InTime, RecordOk, Used, Replayed, SatSub, CountOf;
    var r, x := s.nonces[c.nonce], Spent(c.nonce, CountOf(c), fp, now);
    var s' := s.(nonces := s.nonces[c.nonce := Used(r, c, fp)]);
    assert s'.nonces.Keys == s.nonces.Keys;
    RecordGuards(r, c, fp, log, now);
    NoReplayAppend(log, x);
    IssuedInLog(r, c.nonce, log);
    assert Issued(x.nonce, r.createdAt) in log && SatSub(x.at, r.createdAt) <= TTL;
    InTimeAppend(log, x);
    forall n | n in s'.nonces ensures RecordOk(s'.nonces[n], n, log + [x]) {
      if n == c.nonce { UsedRecordOk(r, c, fp, log, now); } else { OtherRecordOk(s.nonces[n], n, log, x); }
    }
  }

  lemma IssuedInLog(r: NonceRecord, n: string, log: seq<Entry>)
    requires RecordOk(r, n, log)
    ensures Issued(n, r.createdAt) in log
  {
  }

  lemma StepShrink(s: Auth, log: seq<Entry>, s': Auth)
    requires Inv(s, log) && s'.nonces.Keys <= s.nonces.Keys
    requires forall n :: n in s'.nonces ==> s'.nonces[n] == s.nonces[n]
    ensures Inv(s', log)
  {
    hide NoReplay, InTime, RecordOk;
    SubsetSize(s'.nonces.Keys, s.nonces.Keys);
  }

  lemma {:induction false} StepInv(md5: Md5, s: Auth, log: seq<Entry>, e: Event)
    requires Inv(s, log) && NeverReissued(log + Entries(md5, s, e)) && FewUses(log)
    ensures Inv(Next(md5, s, e), log + Entries(md5, s, e))
  {
    hide ParseCredentials, DigestOk, Used, Replayed, Keep, MakeRoom, Inv, Failure, Uses;
    match e {
      case EMint(nonce, now) =>
        NotIssuedBefore(log, nonce, now);
        StepMint(s, log, nonce, now);
      case EVerify(header, verb, fp, now) =>
        if ParseCredentials(header).Some? {
          StepVerify(md5, s, log, ParseCredentials(header).value, verb, fp, now);
        }
        assert log + [] == log;
      case ECleanup(now) =>
        assert log + [] == log;
        KeepSmaller(s.nonces, now, TTL);
        StepShrink(s, log, CleanupNonces(s, now));
      case ESetUsers(users) =>
        assert log + [] == log;
        StepShrink(s, log, s.(users := users));
    }
  }

  lemma StepVerify(md5: Md5, s: Auth, log: seq<Entry>, c: Credentials, verb: string, fp: Option<nat>, now: nat)
    requires Inv(s, log) && FewUses(log)
    ensures var r := Verify(md5, s, c, verb, fp, now);
            Inv(r.0, if r.1.Accepted? then log + [Spent(c.nonce, CountOf(c), fp, now)] else log)
  {
    hide DigestOk, Used, Inv, Uses, CountOf, Failure;
    var r := Verify(md5, s, c, verb, fp, now);
    NotAccepted(md5, s, c, verb);
    if r.1.Accepted? {
      hide Replayed;
      StepUse(s, log, c, fp, now);
    } else {
      StepShrink(s, log, r.0);
    }
  }

  lemma NotAccepted(md5: Md5, s: Auth, c: Credentials, verb: string)
    ensures !Failure(md5, s, c, verb).Accepted?
  {
    hide DigestOk;
  }

  lemma NotIssuedBefore(log: seq<Entry>, nonce: string, now: nat)
    requires NeverReissued(log + [Issued(nonce, now)])
    ensures forall x :: x in log && x.Issued? ==> x.nonce != nonce
  {
    var l := log + [Issued(nonce, now)];
    forall x | x in log && x.Issued? ensures x.nonce != nonce {
      var i :| 0 <= i < |log| && log[i] == x;
      assert l[i] == x && l[|log|] == Issued(nonce, now);
    }
  }

  lemma ReissuedPrefix(log: seq<Entry>, more: seq<Entry>)
    requires NeverReissued(log + more) && FewUses(log + more)
    ensures NeverReissued(log) && FewUses(log)
  {
    var l := log + more;
    assert forall i :: 0 <= i < |log| ==> l[i] == log[i];
    forall n ensures Uses(log, n) < U32 { UsesGrow(log, more, n); }
  }

  lemma {:induction false} UsesGrow(log: seq<Entry>, more: seq<Entry>, n: string)
    ensures Uses(log, n) <= Uses(log + more, n)
  {
    if more == [] {
      assert log + more == log;
    } else {
      assert (log + more)[..|log + more| - 1] == log + more[..|more| - 1];
      UsesGrow(log, more[..|more| - 1], n);
    }
  }

  lemma {:induction false} RunInv(md5: Md5, s: Auth, evs: seq<Event>)
    requires s.nonces == map[] && NeverReissued(Log(md5, s, evs)) && FewUses(Log(md5, s, evs))
    ensures Inv(Run(md5, s, evs), Log(md5, s, evs))
  {
    if evs != [] {
      hide Next, Entries, Inv, NeverReissued;
      var init, e := evs[..|evs| - 1], evs[|evs| - 1];
      var log, more := Log(md5, s, init), Entries(md5, Run(md5, s, init), e);
      ReissuedPrefix(log, more);
      RunInv(md5, s, init);
      StepInv(md5, Run(md5, s, init), log, e);
    }
  }

  /** Replay safety over every run with nonces that never repeat: counts accepted on
      one nonce start at 1 and never fall, equal counts carry the same present
      fingerprint, a request without qop is accepted only as the first use of its
      nonce, and every use falls within the lifetime of an issued nonce. */
  lemma ReplaySafe(md5: Md5, s: Auth, evs: seq<Event>)
    requires s.nonces == map[] && NeverReissued(Log(md5, s, evs)) && FewUses(Log(md5, s, evs))
    ensures NoReplay(Log(md5, s, evs)) && InTime(Log(md5, s, evs))
  {
    hide Run, Log, NoReplay, InTime, NeverReissued, FewUses;
    RunInv(md5, s, evs);
  }

  /** A later request with this count and fingerprint goes with the earlier use `x`: the
      count is higher, or the same for a retransmission with the same fingerprint. */
  predicate Follows(x: Entry, count: nat, fp: Option<nat>) {
    x.Spent? && x.count.Some? ==> x.count.value < count || (x.count.value == count && fp.Some? && x.fp == fp)
  }

  lemma RecordDecides(r: NonceRecord, c: Credentials, fp: Option<nat>, log: seq<Entry>)
    requires RecordOk(r, c.nonce, log) && Uses(log, c.nonce) < U32
    ensures QopAuth(c) ==>
              (Replayed(r, c, fp).None? <==>
                 && NonceCount(c).Some? && NonceCount(c).value >= 1
                 && forall x :: x in log && UseOf(x, c.nonce) ==> Follows(x, NonceCount(c).value, fp))
    ensures !QopAuth(c) ==> (Replayed(r, c, fp).None? <==> forall x :: x in log ==> !UseOf(x, c.nonce))
  {
    hide NonceCount, Uses;
    UsesPositive(log, c.nonce);
    if QopAuth(c) && NonceCount(c).Some? && r.lastNc > 0 {
      var y :| y in log && IsLastUse(y, c.nonce, r);
      assert UseOf(y, c.nonce);
    }
  }

  /** Exactly what is accepted, over every run with nonces that never repeat: a known user's
      request with the digest of the stored secret, on a nonce issued at most 300 seconds
      ago, which, with qop, presents a count that is at least 1 and follows every use of
      the nonce so far (a higher count, or the same one as a retransmission), and without
      qop, is the first use of the nonce. */
  lemma AcceptedExactlyWhen(md5: Md5, s: Auth, evs: seq<Event>, header: string, verb: string, fp: Option<nat>, now: nat)
    requires s.nonces == map[] && NeverReissued(Log(md5, s, evs)) && FewUses(Log(md5, s, evs))
    requires ParseCredentials(header).Some?
    ensures var t, c, log := Run(md5, s, evs), ParseCredentials(header).value, Log(md5, s, evs);
            var count := if c.nc.Some? then ParseHex32(Trim(c.nc.value)) else None;
            VerifyHeader(md5, t, header, verb, fp, now).1.Accepted? <==>
              && Genuine(md5, t.users, c, verb) && LiveNonce(t.nonces, c.nonce, now)
              && if c.qop == Some("auth") then
                   count.Some? && count.value >= 1 && forall x :: x in log && UseOf(x, c.nonce) ==>
                                                        Follows(x, count.value, fp)
                 else forall x :: x in log ==> !UseOf(x, c.nonce)
  {
    hide Run, Log, NeverReissued, ParseCredentials, DigestOk, RecordOk, Used, Replayed, Uses, Follows, Genuine,
      ParseHex32;
    var t, c, log := Run(md5, s, evs), ParseCredentials(header).value, Log(md5, s, evs);
    RunInv(md5, s, evs);
    DigestIsGenuine(md5, t, c, verb);
    if c.nonce in t.nonces {
      RecordDecides(t.nonces[c.nonce], c, fp, log);
      RefusalNotAccepted(t.nonces[c.nonce], c, fp);
    }
  }

  lemma RefusalNotAccepted(r: NonceRecord, c: Credentials, fp: Option<nat>)
    ensures Replayed(r, c, fp).Some? ==> !Replayed(r, c, fp).value.Accepted?
  {
    hide NonceCount;
  }

  /** The table never exceeds its cap, whatever nonces are drawn. */
  lemma {:induction false} TableBounded(md5: Md5, s: Auth, evs: seq<Event>)
    requires s.nonces == map[]
    ensures |Run(md5, s, evs).nonces| <= 100_000
  {
    if evs != [] {
      hide Next;
      var init := evs[..|evs| - 1];
      TableBounded(md5, s, init);
      OneStepBounded(md5, Run(md5, s, init), evs[|evs| - 1]);
    }
  }

  lemma OneStepBounded(md5: Md5, t: Auth, e: Event)
    requires |t.nonces| <= MAX_NONCES
    ensures |Next(md5, t, e).nonces| <= MAX_NONCES
  {
    hide ParseCredentials, DigestOk, Used, Replayed, Keep, MakeRoom, Failure;
    var t' := Next(md5, t, e);
    match e {
      case EMint(nonce, now) =>
        RoomMade(t.nonces, now);
        assert t'.nonces.Keys == MakeRoom(t.nonces, now).Keys + {nonce};
      case EVerify(header, verb, fp, now) =>
        assert t'.nonces.Keys <= t.nonces.Keys;
        SubsetSize(t'.nonces.Keys, t.nonces.Keys);
      case ECleanup(now) => KeepSmaller(t.nonces, now, TTL);
      case ESetUsers(users) =>
    }
  }

  // ------------------------------------------------------------------
  // Evicted nonces stay dead
  // ------------------------------------------------------------------

  /** A nonce that is not in the table and is not issued again is never accepted: neither
      expiry nor eviction can be undone. */
  lemma {:induction false} GoneStaysGone(md5: Md5, s: Auth, evs: seq<Event>, nonce: string)
    requires nonce !in s.nonces && forall x :: x in Log(md5, s, evs) && x.Issued? ==> x.nonce != nonce
    ensures nonce !in Run(md5, s, evs).nonces && forall x :: x in Log(md5, s, evs) ==> !UseOf(x, nonce)
  {
    if evs != [] {
      hide ParseCredentials, DigestOk, Used, Replayed, Keep, MakeRoom, Failure;
      var init, e := evs[..|evs| - 1], evs[|evs| - 1];
      var t := Run(md5, s, init);
      assert forall x :: x in Log(md5, s, init) ==> x in Log(md5, s, evs);
      GoneStaysGone(md5, s, init, nonce);
      OneStepStaysGone(md5, t, e, nonce, Log(md5, s, init), Log(md5, s, evs));
    }
  }

  lemma OneStepStaysGone(md5: Md5, t: Auth, e: Event, nonce: string, log: seq<Entry>, log': seq<Entry>)
    requires nonce !in t.nonces && log' == log + Entries(md5, t, e)
    requires forall x :: x in log' && x.Issued? ==> x.nonce != nonce
    requires forall x :: x in log ==> !UseOf(x, nonce)
    ensures nonce !in Next(md5, t, e).nonces && forall x :: x in log' ==> !UseOf(x, nonce)
  {
    hide ParseCredentials, DigestOk, Used, Replayed, Keep, MakeRoom;
    match e {
      case EMint(n, now) =>
        assert log'[|log|] == Issued(n, now);
        RoomKeys(t.nonces, now);
      case EVerify(header, verb, fp, now) =>
      case ECleanup(now) => KeepSmaller(t.nonces, now, TTL);
      case ESetUsers(users) =>
    }
  }

  lemma RoomKeys(m: map<string, NonceRecord>, now: nat)
    ensures MakeRoom(m, now).Keys <= m.Keys
  {
    hide Keep;
    KeepSmaller(m, now, TTL);
    KeepSmaller(Keep(m, now, TTL), now, TTL / 2);
  }
}
