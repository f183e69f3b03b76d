/** The in-memory registrar of `register.rs`, as values: the binding table, the
    table of recent removals, and REGISTER processing over both. */
module Registrar {
  import opened Prelude
  import opened Text

  // ------------------------------------------------------------------
  // Data
  // ------------------------------------------------------------------

  const MAX_PER_AOR := 10
  const MAX_TOTAL := 5000
  const MAX_CONTACTS := 10
  const MAX_TOMBSTONES := 4096
  const TOMBSTONE_TTL_MS := 64_000
  const RACE_MS := 500

  /** (AOR, binding key). */
  type Key = (string, string)

  datatype Source = Source(ip: string, port: nat, transport: string)

  datatype Reg = Reg(aor: string, contact: string, expires: nat, registeredAtMs: nat, expiresAt: nat,
                     callId: string, cseq: nat, userAgent: Option<string>, source: Source,
                     replyTx: Option<nat>, instanceId: Option<string>, regId: Option<nat>)

  /** Who removed a binding, and when (milliseconds). */
  datatype Tomb = Tomb(callId: string, cseq: nat, at: nat)

  datatype Tables = Tables(regs: map<Key, Reg>, tombs: map<Key, Tomb>)

  /** The Call-ID and CSeq of a request. */
  datatype Dialog = Dialog(callId: string, cseq: nat)

  /** Which of several candidates a hash map happens to yield first. */
  type Pick = set<Key> -> Key

  ghost predicate ValidPick(pick: Pick) {
    forall s: set<Key> :: s != {} ==> pick(s) in s
  }

  // ------------------------------------------------------------------
  // Binding keys
  // ------------------------------------------------------------------

  function OrZero(n: Option<nat>): nat { if n.Some? then n.value else 0 }

  function BindingKey(contact: string, instanceId: Option<string>, regId: Option<nat>): string {
    match instanceId
    case Some(id) => "instance:" + id + ":" + Print(OrZero(regId))
    case None => "contact:" + contact
  }

  function KeyOf(r: Reg): Key { (r.aor, BindingKey(r.contact, r.instanceId, r.regId)) }

  lemma {:induction false} LastColon(a: string, m: string, b: string, n: string)
    requires a + ":" + m == b + ":" + n && ':' !in m && ':' !in n
    ensures a == b && m == n
  {
    var s := a + ":" + m;
    assert s[|a|] == ':' && s[|b|] == ':';
    assert forall i :: |a| < i < |s| ==> s[i] == m[i - |a| - 1];
    assert forall i :: |b| < i < |s| ==> s[i] == n[i - |b| - 1];
    assert a == s[..|a|] && b == s[..|b|] && m == s[|a| + 1..] && n == s[|b| + 1..];
  }

  lemma DigitsNoColon(n: nat)
    ensures ':' !in Print(n)
  {
    hide Print;
    assert forall i :: 0 <= i < |Print(n)| ==> IsDigit(Print(n)[i]);
  }

  /** Two contacts share a key exactly when both name the same instance and the same
      reg-id (absent meaning 0), or neither names an instance and the URIs agree. */
  lemma BindingKeyIdentifies(c1: string, i1: Option<string>, r1: Option<nat>, c2: string, i2: Option<string>,
                             r2: Option<nat>)
    ensures BindingKey(c1, i1, r1) == BindingKey(c2, i2, r2) <==>
              if i1.Some? && i2.Some?
              then i1 == i2 && (if r1.Some? then r1.value else 0) == (if r2.Some? then r2.value else 0)
              else i1.None? && i2.None? && c1 == c2
  {
    hide Print;
    var k1, k2 := BindingKey(c1, i1, r1), BindingKey(c2, i2, r2);
    if i1.Some? && i2.Some? {
      var d1, d2 := Print(OrZero(r1)), Print(OrZero(r2));
      if k1 == k2 {
        DigitsNoColon(OrZero(r1));
        DigitsNoColon(OrZero(r2));
        LastColon("instance:" + i1.value, d1, "instance:" + i2.value, d2);
        assert i1.value == ("instance:" + i1.value)[9..];
        assert i2.value == ("instance:" + i2.value)[9..];
        PrintInjective(OrZero(r1), OrZero(r2));
      }
    } else if i1.None? && i2.None? {
      assert k1[8..] == c1 && k2[8..] == c2;
    } else {
      assert k1[0] == (if i1.Some? then 'i' else 'c') && k2[0] == (if i2.Some? then 'i' else 'c');
    }
  }

  // ------------------------------------------------------------------
  // Capacity
  // ------------------------------------------------------------------

  /** The eviction order: registration time, then expiry. */
  predicate NotNewer(a: Reg, b: Reg) {
    a.registeredAtMs < b.registeredAtMs || (a.registeredAtMs == b.registeredAtMs && a.expiresAt <= b.expiresAt)
  }

  predicate IsOldest(m: map<Key, Reg>, k: Key)
  {
    k in m && forall j :: j in m ==> NotNewer(m[k], m[j])
  }

  function OldestKeys(m: map<Key, Reg>): set<Key> { set k | k in m && IsOldest(m, k) }

  lemma {:induction false} OldestExists(m: map<Key, Reg>)
    requires m != map[]
    ensures OldestKeys(m) != {}
    decreases |m|
  {
    var k :| k in m;
    var rest := m - {k};
    if rest == map[] {
      assert forall j :: j in m ==> j == k by { assert forall j :: j in m && j != k ==> j in rest; }
      assert IsOldest(m, k);
      assert k in OldestKeys(m);
    } else {
      OldestExists(rest);
      var j :| j in OldestKeys(rest);
      var best := if NotNewer(m[k], m[j]) then k else j;
      forall i | i in m ensures NotNewer(m[best], m[i]) {
        if i != k { assert i in rest; }
      }
      assert best in OldestKeys(m);
    }
  }

  /** Drop the oldest binding of the whole table while `full` holds. */
  ghost function Evict(m: map<Key, Reg>, full: map<Key, Reg> -> bool, pick: Pick): (r: map<Key, Reg>)
    requires ValidPick(pick)
    ensures r.Keys <= m.Keys
    decreases |m|
  {
    if m == map[] || !full(m) then m
    else
      OldestExists(m);
      var victim := pick(OldestKeys(m));
      assert victim in m;
      Evict(m - {victim}, full, pick)
  }

  /** An eviction only drops bindings, stops once there is room, and never drops a
      binding while keeping an older one. */
  lemma {:induction false} EvictDropsOldest(m: map<Key, Reg>, full: map<Key, Reg> -> bool, pick: Pick)
    requires ValidPick(pick)
    ensures var r := Evict(m, full, pick);
            && r.Keys <= m.Keys && (forall k :: k in r ==> r[k] == m[k])
            && (r == map[] || !full(r))
            && (forall e, s :: e in m && e !in r && s in r ==> NotNewer(m[e], m[s]))
    ensures !full(m) ==> Evict(m, full, pick) == m
    decreases |m|
  {
    if m != map[] && full(m) {
      OldestExists(m);
      var victim := pick(OldestKeys(m));
      assert victim in OldestKeys(m);
      var rest := m - {victim};
      EvictDropsOldest(rest, full, pick);
      hide NotNewer, ValidPick;
      var r := Evict(rest, full, pick);
      assert Evict(m, full, pick) == r;
      forall e, s | e in m && e !in r && s in r ensures NotNewer(m[e], m[s]) {
        assert s in rest;
        if e != victim { assert e in rest; }
      }
    }
  }

  function AorKeys(m: map<Key, Reg>, aor: string): set<Key> { set k | k in m && k.0 == aor }

  function AorFull(aor: string): map<Key, Reg> -> bool { m => |AorKeys(m, aor)| >= MAX_PER_AOR }

  function TableFull(): map<Key, Reg> -> bool { m => |m| >= MAX_TOTAL }

  ghost function MakeRoom(m: map<Key, Reg>, aor: string, pick: Pick): map<Key, Reg>
    requires ValidPick(pick)
  {
    Evict(Evict(m, AorFull(aor), pick), TableFull(), pick)
  }

  /** Room made for one AOR: below both caps, a sub-table, nothing older kept. */
  lemma MakeRoomWorks(m: map<Key, Reg>, aor: string, pick: Pick)
    requires ValidPick(pick)
    ensures var r := MakeRoom(m, aor, pick);
            && r.Keys <= m.Keys && (forall k :: k in r ==> r[k] == m[k])
            && |AorKeys(r, aor)| < 10 && |r| < 5000
            && (forall e, s :: e in m && e !in r && s in r ==> NotNewer(m[e], m[s]))
  {
    hide Evict;
    var r1 := Evict(m, AorFull(aor), pick);
    var r2 := Evict(r1, TableFull(), pick);
    EvictDropsOldest(m, AorFull(aor), pick);
    EvictDropsOldest(r1, TableFull(), pick);
    SubsetSize(AorKeys(r2, aor), AorKeys(r1, aor));
    assert AorKeys(map[], aor) == {};
    assert r2.Keys <= r1.Keys;
  }

  // ------------------------------------------------------------------
  // Registrar operations
  // ------------------------------------------------------------------

  /** A newer REGISTER of the same binding: everything follows it, but the user
      agent and the reply channel only when it brought one. */
  function RefreshFrom(existing: Reg, newer: Reg): Reg {
    newer.(aor := existing.aor,
          userAgent := if newer.userAgent.Some? then newer.userAgent else existing.userAgent,
          replyTx := if newer.replyTx.Some? then newer.replyTx else existing.replyTx)
  }

  /** Same dialog, CSeq not higher: section 10.3 (step 7) of RFC 3261. */
  predicate NotNewerRequest(callId: string, cseq: nat, d: Dialog) { callId == d.callId && d.cseq <= cseq }

  ghost function Register(t: Tables, reg: Reg, pick: Pick): Tables
    requires ValidPick(pick)
  {
    var k := KeyOf(reg);
    if k in t.regs then
      if NotNewerRequest(t.regs[k].callId, t.regs[k].cseq, Dialog(reg.callId, reg.cseq)) then t
      else t.(regs := t.regs[k := RefreshFrom(t.regs[k], reg)])
    else t.(regs := MakeRoom(t.regs, reg.aor, pick)[k := reg])
  }

  predicate Live(tomb: Tomb, now: nat) { SatSub(now, tomb.at) < TOMBSTONE_TTL_MS }

  function Prune(tombs: map<Key, Tomb>, now: nat): map<Key, Tomb> {
    map k | k in tombs && Live(tombs[k], now) :: tombs[k]
  }

  /** The table with room for one more, as far as expired entries give it. */
  function Roomy(tombs: map<Key, Tomb>, now: nat): map<Key, Tomb> {
    if |tombs| >= MAX_TOMBSTONES then Prune(tombs, now) else tombs
  }

  /** Remember who removed a binding; a table full of live entries forgets it. */
  function Entomb(tombs: map<Key, Tomb>, k: Key, d: Option<Dialog>, now: nat): map<Key, Tomb> {
    if d.None? then tombs
    else
      var kept := Roomy(tombs, now);
      if |kept| >= MAX_TOMBSTONES then kept else kept[k := Tomb(d.value.callId, d.value.cseq, now)]
  }

  /** Is a binding protected from this removal: an out-of-order request of its own
      dialog, or another dialog's within half a second of its refresh? */
  predicate Protected(r: Reg, d: Option<Dialog>, now: nat) {
    d.Some? && (if r.callId == d.value.callId then d.value.cseq <= r.cseq else SatSub(now, r.registeredAtMs) < RACE_MS)
  }

  function UnregisterBinding(t: Tables, k: Key, d: Option<Dialog>, now: nat): Tables {
    if k !in t.regs || Protected(t.regs[k], d, now) then t
    else Tables(t.regs - {k}, Entomb(t.tombs, k, d, now))
  }

  /** The bindings of an AOR a wildcard removes. */
  function WildcardKeys(t: Tables, aor: string, d: Option<Dialog>): set<Key> {
    set k | k in t.regs && k.0 == aor
            && !(d.Some? && NotNewerRequest(t.regs[k].callId, t.regs[k].cseq, d.value))
  }

  ghost function EntombAll(tombs: map<Key, Tomb>, keys: set<Key>, d: Option<Dialog>, now: nat, pick: Pick)
      : map<Key, Tomb>
    requires ValidPick(pick)
    decreases |keys|
  {
    if keys == {} then tombs
    else
      var k := pick(keys);
      EntombAll(Entomb(tombs, k, d, now), keys - {k}, d, now, pick)
  }

  ghost function UnregisterAll(t: Tables, aor: string, d: Option<Dialog>, now: nat, pick: Pick): Tables
    requires ValidPick(pick)
  {
    var keys := WildcardKeys(t, aor, d);
    Tables(t.regs - keys, EntombAll(t.tombs, keys, d, now, pick))
  }

  predicate Unexpired(r: Reg, now: nat) { r.expiresAt > now / 1000 }

  function Lookup(t: Tables, aor: string, now: nat): map<Key, Reg> {
    map k | k in t.regs && k.0 == aor && Unexpired(t.regs[k], now) :: t.regs[k]
  }

  predicate IsOutOfOrder(t: Tables, k: Key, d: Dialog, now: nat) {
    if k in t.regs then NotNewerRequest(t.regs[k].callId, t.regs[k].cseq, d)
    else k in t.tombs && Live(t.tombs[k], now) && NotNewerRequest(t.tombs[k].callId, t.tombs[k].cseq, d)
  }

  /** The periodic sweep. */
  function Sweep(t: Tables, now: nat): Tables {
    Tables(map k | k in t.regs && Unexpired(t.regs[k], now) :: t.regs[k], Prune(t.tombs, now))
  }

  // ------------------------------------------------------------------
  // REGISTER processing
  // ------------------------------------------------------------------

  datatype Policy = Policy(minExpires: nat, maxExpires: nat, defaultExpires: nat)

  predicate Sound(p: Policy) { 1 <= p.minExpires <= p.defaultExpires <= p.maxExpires }

  /** The policy of a configuration, nonsense corrected. */
  function FromConfig(minExpires: nat, maxExpires: nat, defaultExpires: nat): (p: Policy)
    ensures Sound(p)
    ensures 1 <= minExpires <= defaultExpires <= maxExpires ==> p == Policy(minExpires, maxExpires, defaultExpires)
  {
    var lo := Max(minExpires, 1);
    var hi := Max(maxExpires, lo);
    Policy(lo, hi, Max(lo, Min(defaultExpires, hi)))
  }

  datatype Contact = Contact(uri: string, expires: Option<nat>, instanceId: Option<string>, regId: Option<nat>)

  datatype Request = Request(aor: string, contacts: seq<Contact>, wildcard: bool, expiresHeader: Option<nat>,
                             callId: string, cseq: nat, source: Source, userAgent: Option<string>, replyTx: Option<nat>)

  datatype Outcome =
    | Ok(bindings: map<Key, Reg>, registered: seq<Reg>, removed: set<Key>, granted: Option<nat>)
    | IntervalTooBrief(minExpires: nat)
    | BadRequest

  function DialogOf(req: Request): Dialog { Dialog(req.callId, req.cseq) }

  function ContactKey(req: Request, c: Contact): Key { (req.aor, BindingKey(c.uri, c.instanceId, c.regId)) }

  function Asked(p: Policy, req: Request, c: Contact): nat {
    if c.expires.Some? then c.expires.value
    else if req.expiresHeader.Some? then req.expiresHeader.value
    else p.defaultExpires
  }

  predicate TooBrief(p: Policy, req: Request, c: Contact) { 0 < Asked(p, req, c) < p.minExpires }

  function Granted(p: Policy, req: Request, c: Contact): nat { Min(Asked(p, req, c), p.maxExpires) }

  function NewReg(p: Policy, req: Request, c: Contact, now: nat): Reg {
    var expires := Granted(p, req, c);
    Reg(req.aor, c.uri, expires, now, now / 1000 + expires, req.callId, req.cseq, req.userAgent, req.source,
        req.replyTx, c.instanceId, c.regId)
  }

  /** What has been done so far: the tables, what was registered and removed, and
      the interval granted first. */
  datatype Progress = Progress(t: Tables, registered: seq<Reg>, removed: set<Key>, granted: Option<nat>)

  ghost function ApplyContact(a: Progress, p: Policy, req: Request, c: Contact, now: nat, pick: Pick): Progress
    requires ValidPick(pick)
  {
    var k := ContactKey(req, c);
    var d := DialogOf(req);
    if IsOutOfOrder(a.t, k, d, now) then a
    else if Granted(p, req, c) == 0 then
      var t := UnregisterBinding(a.t, k, Some(d), now);
      a.(t := t, removed := if k in a.t.regs && k !in t.regs then a.removed + {k} else a.removed)
    else
      var t := Register(a.t, NewReg(p, req, c, now), pick);
      a.(t := t, registered := a.registered + (if k in t.regs then [t.regs[k]] else []),
         granted := if a.granted.Some? then a.granted else Some(Granted(p, req, c)))
  }

  ghost function ApplyContacts(t: Tables, p: Policy, req: Request, cs: seq<Contact>, now: nat, pick: Pick): Progress
    requires ValidPick(pick)
  {
    if cs == [] then Progress(t, [], {}, None)
    else ApplyContact(ApplyContacts(t, p, req, cs[..|cs| - 1], now, pick), p, req, cs[|cs| - 1], now, pick)
  }

  ghost predicate AnyTooBrief(p: Policy, req: Request) {
    exists i :: 0 <= i < |req.contacts| && TooBrief(p, req, req.contacts[i])
  }

  ghost function Process(t: Tables, p: Policy, req: Request, now: nat, pick: Pick): (Tables, Outcome)
    requires ValidPick(pick)
  {
    if req.wildcard then
      if req.contacts != [] || req.expiresHeader != Some(0) then (t, BadRequest)
      else
        var t' := UnregisterAll(t, req.aor, Some(DialogOf(req)), now, pick);
        (t', Ok(map[], [], t.regs.Keys - t'.regs.Keys, None))
    else if req.contacts == [] then (t, Ok(Lookup(t, req.aor, now), [], {}, None))
    else if |req.contacts| > MAX_CONTACTS then (t, BadRequest)
    else if AnyTooBrief(p, req) then (t, IntervalTooBrief(p.minExpires))
    else
      var a := ApplyContacts(t, p, req, req.contacts, now, pick);
      (a.t, Ok(Lookup(a.t, req.aor, now), a.registered, a.removed, a.granted))
  }
}
