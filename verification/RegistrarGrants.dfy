/** What a REGISTER stores, how long it lasts, and what it takes to remove a binding or to
    have a request refused, with the numbers of the program. */
module RegistrarGrants {
  import opened Prelude
  import opened Registrar
  import opened RegistrarRuns
  import opened RegistrarOrder

  // ------------------------------------------------------------------
  // What is stored
  // ------------------------------------------------------------------

  function Newest<T>(brought: Option<T>, known: Option<T>): Option<T> { if brought.Some? then brought else known }

  /** The binding stored for a registration says everything the registration says; only the user
      agent and the reply channel of an earlier binding outlive one that brought none. */
  ghost predicate Stored(before: map<Key, Reg>, reg: Reg, b: Reg) {
    && b.aor == reg.aor && b.contact == reg.contact && b.expires == reg.expires && b.expiresAt == reg.expiresAt
    && b.registeredAtMs == reg.registeredAtMs && b.callId == reg.callId && b.cseq == reg.cseq
    && b.source == reg.source && b.instanceId == reg.instanceId && b.regId == reg.regId
    && var k := KeyOf(reg);
    && b.userAgent == Newest(reg.userAgent, if k in before then before[k].userAgent else None)
    && b.replyTx == Newest(reg.replyTx, if k in before then before[k].replyTx else None)
  }

  /** Registering stores the registration, new or refreshed, exactly unless the key is bound by a
      request of the same dialog that is as new; then nothing changes. */
  lemma RegisterStores(t: Tables, reg: Reg, pick: Pick)
    requires ValidPick(pick) && TablesOk(t)
    ensures var k, t' := KeyOf(reg), Register(t, reg, pick);
            if k in t.regs && t.regs[k].callId == reg.callId && reg.cseq <= t.regs[k].cseq then t' == t
            else k in t'.regs && Stored(t.regs, reg, t'.regs[k]) && t'.tombs == t.tombs
  {
    hide MakeRoom, BindingKey;
    if KeyOf(reg) in t.regs { assert KeyOf(t.regs[KeyOf(reg)]) == KeyOf(reg); }
  }

  /** The interval a contact is granted: what its own parameter asks for, else the Expires header
      of the request, else the default; never more than the maximum. */
  function Interval(p: Policy, req: Request, c: Contact): nat {
    var asked := if c.expires.Some? then c.expires.value
                 else if req.expiresHeader.Some? then req.expiresHeader.value else p.defaultExpires;
    if asked > p.maxExpires then p.maxExpires else asked
  }

  lemma IntervalIsGranted(p: Policy, req: Request, c: Contact)
    ensures Interval(p, req, c) == Granted(p, req, c)
  {
  }

  /** The binding a granted contact leaves. */
  ghost predicate Grants(before: Tables, after: Tables, p: Policy, req: Request, c: Contact, now: nat) {
    var k, g := ContactKey(req, c), Interval(p, req, c);
    && k in after.regs
    && var b := after.regs[k];
    && b.aor == req.aor && b.contact == c.uri && b.instanceId == c.instanceId && b.regId == c.regId
    && b.source == req.source && b.callId == req.callId && b.cseq == req.cseq
    && b.expires == g && b.registeredAtMs == now && b.expiresAt == now / 1000 + g
    && b.userAgent == Newest(req.userAgent, if k in before.regs then before.regs[k].userAgent else None)
    && b.replyTx == Newest(req.replyTx, if k in before.regs then before.regs[k].replyTx else None)
  }

  /** A contact in order that is granted an interval above 0 is bound for that interval from now
      on, whether its key is new or refreshed. */
  lemma GrantIsStored(a: Progress, p: Policy, req: Request, c: Contact, now: nat, pick: Pick)
    requires ValidPick(pick) && TablesOk(a.t)
    requires !IsOutOfOrder(a.t, ContactKey(req, c), DialogOf(req), now) && Interval(p, req, c) > 0
    ensures Grants(a.t, ApplyContact(a, p, req, c, now, pick).t, p, req, c, now)
  {
    hide Register, BindingKey, TablesOk, UnregisterBinding, Live;
    IntervalIsGranted(p, req, c);
    RegisterStores(a.t, NewReg(p, req, c, now), pick);
  }

  // ------------------------------------------------------------------
  // How long it lasts
  // ------------------------------------------------------------------

  lemma BindingKept(t: Tables, s: Step, k: Key)
    requires ValidStep(s) && k in t.regs && !Names(s, k) && !Evicts(t, s, k) && s.now / 1000 < t.regs[k].expiresAt
    ensures k in Next(t, s).regs && Next(t, s).regs[k] == t.regs[k]
  {
    if s.SweepStep? {
      hide Live;
    } else {
      hide Next, Names, Evicts;
      OtherKeyUntouched(t, s, k);
    }
  }

  /** A binding stays as it is through every run that does not name its key and in which no cap
      takes it, sweeps included, as long as it has not expired. */
  lemma {:induction false} BindingLasts(t: Tables, ss: seq<Step>, k: Key)
    requires ValidRun(ss) && k in t.regs
    requires forall i :: 0 <= i < |ss| ==>
               !Names(ss[i], k) && !Evicts(Run(t, ss[..i]), ss[i], k) && ss[i].now / 1000 < t.regs[k].expiresAt
    ensures k in Run(t, ss).regs && Run(t, ss).regs[k] == t.regs[k]
  {
    hide Next, Names, Evicts;
    if ss != [] {
      var n := |ss| - 1;
      var init := ss[..n];
      forall i | 0 <= i < n ensures init[..i] == ss[..i] && init[i] == ss[i] {}
      BindingLasts(t, init, k);
      BindingKept(Run(t, init), ss[n], k);
    }
  }

  /** So what is granted is listed for exactly the interval granted: after a granted contact and
      any such run, a lookup finds the binding if and only if the interval is not over. */
  lemma GrantIsListed(t: Tables, p: Policy, req: Request, c: Contact, now: nat, pick: Pick, ss: seq<Step>, later: nat)
    requires ValidPick(pick) && TablesOk(t) && ValidRun(ss)
    requires !IsOutOfOrder(t, ContactKey(req, c), DialogOf(req), now) && Interval(p, req, c) > 0
    requires var k, t' := ContactKey(req, c), Next(t, ContactStep(p, req, c, now, pick));
             forall i :: 0 <= i < |ss| ==>
               && !Names(ss[i], k) && !Evicts(Run(t', ss[..i]), ss[i], k)
               && ss[i].now / 1000 < now / 1000 + Interval(p, req, c)
    ensures var k, t' := ContactKey(req, c), Next(t, ContactStep(p, req, c, now, pick));
            var found := Lookup(Run(t', ss), req.aor, later);
            && (k in found <==> later / 1000 < now / 1000 + Interval(p, req, c))
            && (k in found ==> k in t'.regs && found[k] == t'.regs[k])
  {
    hide Run, ApplyContact, TablesOk, IsOutOfOrder, BindingKey, Names, Evicts, Interval;
    GrantIsStored(Progress(t, [], {}, None), p, req, c, now, pick);
    BindingLasts(Next(t, ContactStep(p, req, c, now, pick)), ss, ContactKey(req, c));
  }

  // ------------------------------------------------------------------
  // Order and removal, in numbers
  // ------------------------------------------------------------------

  /** When a request is out of order for a key: for a bound key, when the binding is of its own
      dialog and as new; for any other, when the key was removed by its own dialog, by a
      request as new, less than 64 seconds ago. */
  lemma OrderTest(t: Tables, k: Key, d: Dialog, now: nat)
    ensures IsOutOfOrder(t, k, d, now) <==>
              if k in t.regs then t.regs[k].callId == d.callId && d.cseq <= t.regs[k].cseq
              else k in t.tombs && now < t.tombs[k].at + 64_000
                   && t.tombs[k].callId == d.callId && d.cseq <= t.tombs[k].cseq
  {
  }

  /** What it takes to remove a binding: nothing, from inside the program; a higher CSeq, from
      its own dialog; and from another dialog, that half a second has passed since the
      binding was last registered. No other binding goes. */
  lemma RemovalTest(t: Tables, k: Key, d: Option<Dialog>, now: nat)
    requires k in t.regs
    ensures var t' := UnregisterBinding(t, k, d, now);
            && (k !in t'.regs <==>
                  d.None? || (if d.value.callId == t.regs[k].callId then d.value.cseq > t.regs[k].cseq
                              else now >= t.regs[k].registeredAtMs + 500))
            && (forall j :: j != k ==> (j in t'.regs <==> j in t.regs))
            && (forall j :: j in t'.regs ==> t'.regs[j] == t.regs[j])
  {
    hide Entomb;
  }

  /** A wildcard of a request removes exactly the bindings of the AOR that are not of its own
      dialog and as new; the half second does not protect from it. */
  lemma WildcardTest(t: Tables, aor: string, d: Option<Dialog>, now: nat, pick: Pick, k: Key)
    requires ValidPick(pick)
    ensures var t' := UnregisterAll(t, aor, d, now, pick);
            && (k in t'.regs <==>
                  k in t.regs && (k.0 != aor || (d.Some? && d.value.callId == t.regs[k].callId
                                                 && d.value.cseq <= t.regs[k].cseq)))
            && (k in t'.regs ==> t'.regs[k] == t.regs[k])
  {
    hide EntombAll;
  }

  /** The sweep: bindings go when their second comes, removals are forgotten after 64 seconds. */
  lemma SweepTest(t: Tables, now: nat, k: Key)
    ensures var t' := Sweep(t, now);
            && (k in t'.regs <==> k in t.regs && now / 1000 < t.regs[k].expiresAt)
            && (k in t'.tombs <==> k in t.tombs && now < t.tombs[k].at + 64_000)
            && (k in t'.regs ==> t'.regs[k] == t.regs[k]) && (k in t'.tombs ==> t'.tombs[k] == t.tombs[k])
  {
  }

  // ------------------------------------------------------------------
  // Which requests are refused
  // ------------------------------------------------------------------

  /** The contact asks for an interval above 0 and below the minimum. */
  predicate AsksTooLittle(p: Policy, req: Request, c: Contact) {
    var asked := if c.expires.Some? then c.expires.value
                 else if req.expiresHeader.Some? then req.expiresHeader.value else p.defaultExpires;
    0 < asked < p.minExpires
  }

  /** Exactly when a REGISTER is refused: with 400, when its wildcard comes with contacts or
      without an Expires of 0, or when it has more than ten contacts; with 423 and the
      minimum, when any of its at most ten contacts asks for too little. */
  lemma RefusedWhen(t: Tables, p: Policy, req: Request, now: nat, pick: Pick)
    requires ValidPick(pick)
    ensures var out := Process(t, p, req, now, pick).1;
            && (out.BadRequest? <==>
                  if req.wildcard then req.contacts != [] || req.expiresHeader != Some(0) else |req.contacts| > 10)
            && (out.IntervalTooBrief? <==>
                  && !req.wildcard && |req.contacts| <= 10
                  && exists i :: 0 <= i < |req.contacts| && AsksTooLittle(p, req, req.contacts[i]))
            && (out.IntervalTooBrief? ==> out.minExpires == p.minExpires)
  {
    hide ApplyContacts, UnregisterAll, Lookup;
    forall c ensures TooBrief(p, req, c) <==> AsksTooLittle(p, req, c) {}
    hide TooBrief, AsksTooLittle;
  }

  /** How a configuration is corrected: a minimum of at least 1, a maximum of at least that, and
      the default moved to the nearer of the two when it lies outside them. */
  lemma ConfigIsClamped(minExpires: nat, maxExpires: nat, defaultExpires: nat)
    ensures var p := FromConfig(minExpires, maxExpires, defaultExpires);
            && p.minExpires == (if minExpires == 0 then 1 else minExpires)
            && p.maxExpires == (if maxExpires < p.minExpires then p.minExpires else maxExpires)
            && (p.minExpires <= defaultExpires <= p.maxExpires ==> p.defaultExpires == defaultExpires)
            && (defaultExpires < p.minExpires ==> p.defaultExpires == p.minExpires)
            && (defaultExpires > p.maxExpires ==> p.defaultExpires == p.maxExpires)
  {
  }

  // ------------------------------------------------------------------
  // What the reply tells
  // ------------------------------------------------------------------

  /** What one contact adds to the reply: the binding it is bound to, when it is in order and
      granted an interval; the key it removed, when it removed one; and the interval, when
      it is the first that was granted one. */
  lemma ContactTells(a: Progress, p: Policy, req: Request, c: Contact, now: nat, pick: Pick)
    requires ValidPick(pick) && TablesOk(a.t)
    ensures var k, g, r := ContactKey(req, c), Interval(p, req, c), ApplyContact(a, p, req, c, now, pick);
            var inOrder := !IsOutOfOrder(a.t, k, DialogOf(req), now);
            && (inOrder && g > 0 ==> k in r.t.regs && r.registered == a.registered + [r.t.regs[k]])
            && (!(inOrder && g > 0) ==> r.registered == a.registered)
            && r.removed == a.removed + (if k in a.t.regs && k !in r.t.regs then {k} else {})
            && r.granted == (if a.granted.None? && inOrder && g > 0 then Some(g) else a.granted)
  {
    hide Register, BindingKey, TablesOk, UnregisterBinding, IsOutOfOrder, Interval;
    IntervalIsGranted(p, req, c);
    RegisterOk(a.t, NewReg(p, req, c, now), pick);
    StillBound(a.t, NewReg(p, req, c, now), pick);
    hide Granted;
  }

  lemma StillBound(t: Tables, reg: Reg, pick: Pick)
    requires ValidPick(pick) && TablesOk(t)
    ensures KeyOf(reg) in Register(t, reg, pick).regs
  {
    hide Register, TablesOk;
    RegisterOk(t, reg, pick);
  }

  /** And the reply tells what all contacts added, in their order; a wildcard's tells exactly
      what it removed. */
  lemma ReplyTells(t: Tables, p: Policy, req: Request, now: nat, pick: Pick)
    requires ValidPick(pick) && Process(t, p, req, now, pick).1.Ok?
    ensures var (t', out) := Process(t, p, req, now, pick);
            var a := ApplyContacts(t, p, req, if req.wildcard then [] else req.contacts, now, pick);
            && out.registered == a.registered && out.granted == a.granted
            && out.removed == (if req.wildcard then t.regs.Keys - t'.regs.Keys else a.removed)
  {
    hide UnregisterAll, Lookup, AnyTooBrief, ApplyContact;
  }
}
