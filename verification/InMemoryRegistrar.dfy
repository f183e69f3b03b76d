/** The mutable registrar of `register.rs` and its REGISTER handler, proved against
    the functions of module Registrar. */
module InMemoryRegistrar {
  import opened Prelude
  import opened Registrar
  import opened RegistrarRuns
  import opened RegistrarGrants

  /** `evict_oldest_while`. */
  method EvictOldestWhile(m: map<Key, Reg>, full: map<Key, Reg> -> bool, pick: Pick) returns (r: map<Key, Reg>)
    requires ValidPick(pick)
    ensures r == Evict(m, full, pick)
  {
    r := m;
    while r != map[] && full(r)
      invariant Evict(r, full, pick) == Evict(m, full, pick)
      decreases |r|
    {
      OldestExists(r);
      var victim := pick(OldestKeys(r));
      assert victim in OldestKeys(r);
      r := r - {victim};
    }
  }

  lemma ProcessFacts(t: Tables, p: Policy, req: Request, now: nat, pick: Pick)
    requires TablesOk(t) && ValidPick(pick)
    ensures ValidRun(ProcessSteps(p, req, now, pick))
    ensures Process(t, p, req, now, pick).0 == Run(t, ProcessSteps(p, req, now, pick))
    ensures Process(t, p, req, now, pick).1.Ok? ==> |Process(t, p, req, now, pick).1.bindings| <= MAX_PER_AOR
  {
    hide TablesOk, Run, ProcessSteps, ApplyContacts, UnregisterAll, Lookup, AnyTooBrief;
    ProcessIsRun(t, p, req, now, pick);
    if !req.wildcard && Process(t, p, req, now, pick).1.Ok? { ReplyFaithful(t, p, req, now, pick); }
  }

  class Store {
    var regs: map<Key, Reg>
    var tombs: map<Key, Tomb>

    function View(): Tables
      reads this
    {
      Tables(regs, tombs)
    }

    /** Own keys and all three caps. */
    ghost predicate Valid()
      reads this
    {
      TablesOk(View())
    }

    constructor ()
      ensures Valid() && View() == Tables(map[], map[])
    {
      EmptyOk();
      regs, tombs := map[], map[];
    }

    /** Stores the registration, unless a request of its own dialog that is as new holds the key,
        and returns what the key is bound to. */
    method RegisterBinding(reg: Reg, pick: Pick) returns (stored: Reg)
      requires Valid() && ValidPick(pick)
      modifies this
      ensures Valid() && View() == Register(old(View()), reg, pick)
      ensures KeyOf(reg) in regs && stored == regs[KeyOf(reg)] && tombs == old(tombs)
      ensures var k := KeyOf(reg);
              if k in old(regs) && old(regs)[k].callId == reg.callId && reg.cseq <= old(regs)[k].cseq
              then regs == old(regs) else Stored(old(regs), reg, stored)
    {
      hide BindingKey, Evict, TablesOk, Stored;
      RegisterStores(View(), reg, pick);
      RegisterOk(View(), reg, pick);
      var k := KeyOf(reg);
      if k in regs {
        var existing := regs[k];
        if existing.callId == reg.callId && reg.cseq <= existing.cseq { return existing; }
        regs := regs[k := RefreshFrom(existing, reg)];
      } else {
        var m := EvictOldestWhile(regs, AorFull(k.0), pick);
        m := EvictOldestWhile(m, TableFull(), pick);
        regs := m[k := reg];
      }
      stored := regs[k];
    }

    method RememberRemoval(k: Key, d: Option<Dialog>, now: nat)
      modifies this
      ensures tombs == Entomb(old(tombs), k, d, now) && regs == old(regs)
    {
      if d.None? { return; }
      if |tombs| >= MAX_TOMBSTONES {
        tombs := Prune(tombs, now);
        if |tombs| >= MAX_TOMBSTONES { return; }
      }
      tombs := tombs[k := Tomb(d.value.callId, d.value.cseq, now)];
    }

    /** Removes the binding unless an order rule protects it: nothing as old as it, from its own
        dialog; nothing within half a second of its registration, from another. */
    method Unregister(k: Key, d: Option<Dialog>, now: nat) returns (removed: Option<Reg>)
      requires Valid()
      modifies this
      ensures Valid() && View() == UnregisterBinding(old(View()), k, d, now)
      ensures removed == if k in old(regs) && k !in regs then Some(old(regs)[k]) else None
      ensures k in old(regs) ==>
                (removed.Some? <==>
                   d.None? || (if d.value.callId == old(regs)[k].callId then d.value.cseq > old(regs)[k].cseq
                               else now >= old(regs)[k].registeredAtMs + 500))
    {
      hide Entomb, TablesOk;
      UnregisterOk(View(), k, d, now);
      if k !in regs { return None; }
      var existing := regs[k];
      if d.Some? {
        if existing.callId == d.value.callId {
          if d.value.cseq <= existing.cseq { return None; }
        } else if SatSub(now, existing.registeredAtMs) < RACE_MS {
          return None;
        }
      }
      regs := regs - {k};
      RememberRemoval(k, d, now);
      return Some(existing);
    }

    method UnregisterEvery(aor: string, d: Option<Dialog>, now: nat, pick: Pick) returns (removed: set<Key>)
      requires Valid() && ValidPick(pick)
      modifies this
      ensures Valid() && View() == UnregisterAll(old(View()), aor, d, now, pick)
      ensures removed == old(regs).Keys - regs.Keys
    {
      hide Entomb, TablesOk;
      UnregisterAllOk(View(), aor, d, now, pick);
      removed := WildcardKeys(View(), aor, d);
      regs := regs - removed;
      var left := removed;
      while left != {}
        invariant left <= removed && regs == old(regs) - removed
        invariant EntombAll(tombs, left, d, now, pick) == EntombAll(old(tombs), removed, d, now, pick)
        decreases |left|
      {
        var k := pick(left);
        RememberRemoval(k, d, now);
        left := left - {k};
      }
    }

    method CleanupExpired(now: nat) returns (removed: set<Key>)
      requires Valid()
      modifies this
      ensures Valid() && View() == Sweep(old(View()), now)
      ensures forall k :: k in regs <==> k in old(regs) && now / 1000 < old(regs)[k].expiresAt
      ensures forall k :: k in tombs <==> k in old(tombs) && now < old(tombs)[k].at + 64_000
      ensures removed == old(regs).Keys - regs.Keys
    {
      hide TablesOk;
      SweepOk(View(), now);
      tombs := Prune(tombs, now);
      removed := set k | k in regs && regs[k].expiresAt <= now / 1000;
      ghost var before := regs;
      regs := regs - removed;
      assert regs == map k | k in before && Unexpired(before[k], now) :: before[k];
    }

    /** One contact of a request: the loop body of the handler. In order and granted an interval,
        it is bound for that interval from now on. */
    method HandleContact(p: Policy, req: Request, c: Contact, now: nat, pick: Pick,
                         registered: seq<Reg>, removed: set<Key>, granted: Option<nat>)
        returns (registered': seq<Reg>, removed': set<Key>, granted': Option<nat>)
      requires Valid() && ValidPick(pick)
      modifies this
      ensures Valid() && Progress(View(), registered', removed', granted')
                         == ApplyContact(Progress(old(View()), registered, removed, granted), p, req, c, now, pick)
      ensures !old(IsOutOfOrder(View(), ContactKey(req, c), DialogOf(req), now)) && Interval(p, req, c) > 0 ==>
                Grants(old(View()), View(), p, req, c, now)
    {
      hide Register, UnregisterBinding, IsOutOfOrder, BindingKey, Granted, TablesOk, Interval, Grants;
      if !IsOutOfOrder(View(), ContactKey(req, c), DialogOf(req), now) && Interval(p, req, c) > 0 {
        GrantIsStored(Progress(View(), registered, removed, granted), p, req, c, now, pick);
      }
      registered', removed', granted' := registered, removed, granted;
      var k := ContactKey(req, c);
      var expires := Granted(p, req, c);
      if !IsOutOfOrder(View(), k, DialogOf(req), now) {
        if expires == 0 {
          var r := Unregister(k, Some(DialogOf(req)), now);
          if r.Some? { removed' := removed + {k}; }
        } else {
          var stored := RegisterBinding(NewReg(p, req, c, now), pick);
          registered' := registered + [stored];
          if granted.None? { granted' := Some(expires); }
        }
      }
    }

    /** The contacts of an admitted request, in their order. */
    method HandleContacts(p: Policy, req: Request, now: nat, pick: Pick)
        returns (registered: seq<Reg>, removed: set<Key>, granted: Option<nat>)
      requires Valid() && ValidPick(pick)
      modifies this
      ensures Valid() && Progress(View(), registered, removed, granted)
                         == ApplyContacts(old(View()), p, req, req.contacts, now, pick)
    {
      hide ApplyContact, TablesOk;
      registered, removed, granted := [], {}, None;
      for i := 0 to |req.contacts|
        invariant Valid()
        invariant Progress(View(), registered, removed, granted)
                  == ApplyContacts(old(View()), p, req, req.contacts[..i], now, pick)
      {
        assert req.contacts[..i + 1][..i] == req.contacts[..i];
        registered, removed, granted := HandleContact(p, req, req.contacts[i], now, pick, registered, removed, granted);
      }
      assert req.contacts[..|req.contacts|] == req.contacts;
    }

    /** `RegisterHandler::process`: a request that is refused changes nothing, and it is refused
        exactly when it is malformed or asks for too little. */
    method ProcessRegister(p: Policy, req: Request, now: nat, pick: Pick) returns (out: Outcome)
      requires Valid() && ValidPick(pick)
      modifies this
      ensures Valid() && (View(), out) == Process(old(View()), p, req, now, pick)
      ensures ValidRun(ProcessSteps(p, req, now, pick)) && View() == Run(old(View()), ProcessSteps(p, req, now, pick))
      ensures out.Ok? ==> |out.bindings| <= 10
      ensures !out.Ok? ==> View() == old(View())
      ensures out.BadRequest? <==>
                if req.wildcard then req.contacts != [] || req.expiresHeader != Some(0) else |req.contacts| > 10
      ensures out.IntervalTooBrief? <==>
                && !req.wildcard && |req.contacts| <= 10
                && exists i :: 0 <= i < |req.contacts| && AsksTooLittle(p, req, req.contacts[i])
    {
      RefusedWhen(View(), p, req, now, pick);
      hide AsksTooLittle;
      ProcessFacts(View(), p, req, now, pick);
      hide TablesOk, Run, ProcessSteps, UnregisterAll, ApplyContacts, Lookup, TooBrief;
      if req.wildcard {
        if req.contacts != [] || req.expiresHeader != Some(0) { return BadRequest; }
        var gone := UnregisterEvery(req.aor, Some(DialogOf(req)), now, pick);
        return Ok(map[], [], gone, None);
      }
      if req.contacts == [] { return Ok(Lookup(View(), req.aor, now), [], {}, None); }
      if |req.contacts| > MAX_CONTACTS { return BadRequest; }
      for i := 0 to |req.contacts|
        invariant forall j :: 0 <= j < i ==> !TooBrief(p, req, req.contacts[j])
      {
        if TooBrief(p, req, req.contacts[i]) { return IntervalTooBrief(p.minExpires); }
      }
      var registered, removed, granted := HandleContacts(p, req, now, pick);
      return Ok(Lookup(View(), req.aor, now), registered, removed, granted);
    }
  }
}
