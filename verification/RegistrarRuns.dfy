/** What holds of the registrar in every reachable state and over every run. */
module RegistrarRuns {
  import opened Prelude
  import opened Registrar

  // ------------------------------------------------------------------
  // The tables in every reachable state
  // ------------------------------------------------------------------

  /** Each binding under its own key, all three caps respected. */
  ghost predicate TablesOk(t: Tables) {
    && (forall k :: k in t.regs ==> k == KeyOf(t.regs[k]))
    && (forall aor :: |AorKeys(t.regs, aor)| <= MAX_PER_AOR)
    && |t.regs| <= MAX_TOTAL && |t.tombs| <= MAX_TOMBSTONES
  }

  lemma SubTableOk(t: Tables, t': Tables)
    requires TablesOk(t) && t'.regs.Keys <= t.regs.Keys && |t'.tombs| <= MAX_TOMBSTONES
    requires forall k :: k in t'.regs ==> t'.regs[k] == t.regs[k]
    ensures TablesOk(t')
  {
    hide KeyOf;
    forall aor ensures |AorKeys(t'.regs, aor)| <= MAX_PER_AOR {
      SubsetSize(AorKeys(t'.regs, aor), AorKeys(t.regs, aor));
    }
    SubsetSize(t'.regs.Keys, t.regs.Keys);
  }

  lemma EntombBounded(tombs: map<Key, Tomb>, k: Key, d: Option<Dialog>, now: nat)
    requires |tombs| <= MAX_TOMBSTONES
    ensures |Entomb(tombs, k, d, now)| <= MAX_TOMBSTONES
  {
    var kept := Roomy(tombs, now);
    SubsetSize(kept.Keys, tombs.Keys);
    if d.Some? && |kept| < MAX_TOMBSTONES {
      var r := kept[k := Tomb(d.value.callId, d.value.cseq, now)];
      assert r.Keys == kept.Keys + {k};
    }
  }

  lemma {:induction false} EntombAllBounded(tombs: map<Key, Tomb>, keys: set<Key>, d: Option<Dialog>, now: nat,
                                            pick: Pick)
    requires ValidPick(pick) && |tombs| <= MAX_TOMBSTONES
    ensures |EntombAll(tombs, keys, d, now, pick)| <= MAX_TOMBSTONES
    decreases |keys|
  {
    if keys != {} {
      hide Entomb;
      var k := pick(keys);
      EntombBounded(tombs, k, d, now);
      EntombAllBounded(Entomb(tombs, k, d, now), keys - {k}, d, now, pick);
    }
  }

  /** Registering keeps the tables sound, and the binding just registered is there,
      unless the request was out of order in its own dialog. */
  lemma RegisterOk(t: Tables, reg: Reg, pick: Pick)
    requires ValidPick(pick) && TablesOk(t)
    ensures var t' := Register(t, reg, pick);
            && TablesOk(t') && KeyOf(reg) in t'.regs
            && (!(KeyOf(reg) in t.regs
                  && NotNewerRequest(t.regs[KeyOf(reg)].callId, t.regs[KeyOf(reg)].cseq,
                                     Dialog(reg.callId, reg.cseq))) ==>
                  t'.regs[KeyOf(reg)].callId == reg.callId && t'.regs[KeyOf(reg)].cseq == reg.cseq)
  {
    var k := KeyOf(reg);
    var t' := Register(t, reg, pick);
    if k in t.regs {
      if t' != t {
        assert t'.regs.Keys == t.regs.Keys;
        assert KeyOf(RefreshFrom(t.regs[k], reg)) == k;
        assert forall aor :: AorKeys(t'.regs, aor) == AorKeys(t.regs, aor);
        assert |t'.regs.Keys| == |t.regs.Keys|;
      }
    } else {
      hide MakeRoom;
      var r := MakeRoom(t.regs, reg.aor, pick);
      MakeRoomWorks(t.regs, reg.aor, pick);
      SubTableOk(t, t.(regs := r));
      InsertOk(t.(regs := r), reg);
    }
  }

  lemma InsertOk(t: Tables, reg: Reg)
    requires TablesOk(t) && |AorKeys(t.regs, reg.aor)| < MAX_PER_AOR && |t.regs| < MAX_TOTAL && KeyOf(reg) !in t.regs
    ensures TablesOk(t.(regs := t.regs[KeyOf(reg) := reg]))
  {
    hide BindingKey, AorKeys;
    var k := KeyOf(reg);
    var m := t.regs[k := reg];
    assert m.Keys == t.regs.Keys + {k};
    forall aor ensures |AorKeys(m, aor)| <= MAX_PER_AOR {
      AorInsert(t.regs, k, reg, aor);
    }
  }

  lemma AorInsert(m: map<Key, Reg>, k: Key, reg: Reg, aor: string)
    ensures AorKeys(m[k := reg], aor) == if k.0 == aor then AorKeys(m, aor) + {k} else AorKeys(m, aor)
  {
  }

  lemma UnregisterOk(t: Tables, k: Key, d: Option<Dialog>, now: nat)
    requires TablesOk(t)
    ensures TablesOk(UnregisterBinding(t, k, d, now))
  {
    hide Entomb, TablesOk, Protected;
    assert |t.tombs| <= MAX_TOMBSTONES by { TombsBounded(t); }
    EntombBounded(t.tombs, k, d, now);
    var t' := UnregisterBinding(t, k, d, now);
    if t' != t { SubTableOk(t, t'); }
  }

  lemma TombsBounded(t: Tables)
    requires TablesOk(t)
    ensures |t.tombs| <= MAX_TOMBSTONES
  {
  }

  lemma UnregisterAllOk(t: Tables, aor: string, d: Option<Dialog>, now: nat, pick: Pick)
    requires ValidPick(pick) && TablesOk(t)
    ensures TablesOk(UnregisterAll(t, aor, d, now, pick))
  {
    hide EntombAll, TablesOk;
    TombsBounded(t);
    EntombAllBounded(t.tombs, WildcardKeys(t, aor, d), d, now, pick);
    SubTableOk(t, UnregisterAll(t, aor, d, now, pick));
  }

  lemma SweepOk(t: Tables, now: nat)
    requires TablesOk(t)
    ensures TablesOk(Sweep(t, now))
  {
    var t' := Sweep(t, now);
    SubsetSize(t'.tombs.Keys, t.tombs.Keys);
    hide TablesOk, Live;
    SubTableOk(t, t');
  }

  lemma {:induction false} ApplyContactOk(a: Progress, p: Policy, req: Request, c: Contact, now: nat, pick: Pick)
    requires ValidPick(pick) && TablesOk(a.t)
    ensures TablesOk(ApplyContact(a, p, req, c, now, pick).t)
  {
    hide TablesOk, Register, UnregisterBinding, IsOutOfOrder;
    UnregisterOk(a.t, ContactKey(req, c), Some(DialogOf(req)), now);
    RegisterOk(a.t, NewReg(p, req, c, now), pick);
  }

  lemma {:induction false} ApplyContactsOk(t: Tables, p: Policy, req: Request, cs: seq<Contact>, now: nat, pick: Pick)
    requires ValidPick(pick) && TablesOk(t)
    ensures TablesOk(ApplyContacts(t, p, req, cs, now, pick).t)
  {
    hide TablesOk, ApplyContact;
    if cs != [] {
      ApplyContactsOk(t, p, req, cs[..|cs| - 1], now, pick);
      ApplyContactOk(ApplyContacts(t, p, req, cs[..|cs| - 1], now, pick), p, req, cs[|cs| - 1], now, pick);
    }
  }

  lemma ProcessOk(t: Tables, p: Policy, req: Request, now: nat, pick: Pick)
    requires ValidPick(pick) && TablesOk(t)
    ensures TablesOk(Process(t, p, req, now, pick).0)
  {
    hide TablesOk, UnregisterAll, ApplyContacts, AnyTooBrief, Lookup;
    UnregisterAllOk(t, req.aor, Some(DialogOf(req)), now, pick);
    ApplyContactsOk(t, p, req, req.contacts, now, pick);
  }

  /** The reply to a REGISTER without wildcard lists exactly the AOR's unexpired bindings
      as they are after it, so never more than ten. */
  lemma ReplyFaithful(t: Tables, p: Policy, req: Request, now: nat, pick: Pick)
    requires TablesOk(t) && ValidPick(pick) && !req.wildcard && Process(t, p, req, now, pick).1.Ok?
    ensures var (t', out) := Process(t, p, req, now, pick);
            && (forall k :: k in out.bindings <==> k in t'.regs && k.0 == req.aor && t'.regs[k].expiresAt > now / 1000)
            && (forall k :: k in out.bindings ==> out.bindings[k] == t'.regs[k])
            && |out.bindings| <= MAX_PER_AOR
  {
    hide ApplyContacts;
    ProcessOk(t, p, req, now, pick);
    var (t', out) := Process(t, p, req, now, pick);
    SubsetSize(out.bindings.Keys, AorKeys(t'.regs, req.aor));
  }

  // ------------------------------------------------------------------
  // Runs
  // ------------------------------------------------------------------

  /** What the registrar does, one contact of a REGISTER at a time: the order test of a
      contact and the change it leads to are one step. Module RegistrarSections looks
      at the lock sections they consist of. */
  datatype Step =
    | ContactStep(policy: Policy, req: Request, contact: Contact, now: nat, pick: Pick)
    | WildcardStep(aor: string, dialog: Dialog, now: nat, pick: Pick)
    | RemovalStep(key: Key, remover: Option<Dialog>, now: nat)
    | SweepStep(now: nat)

  ghost predicate ValidStep(s: Step) { s.ContactStep? || s.WildcardStep? ==> ValidPick(s.pick) }

  ghost predicate ValidRun(ss: seq<Step>) { forall i :: 0 <= i < |ss| ==> ValidStep(ss[i]) }

  ghost function Next(t: Tables, s: Step): Tables
    requires ValidStep(s)
  {
    match s
    case ContactStep(p, req, c, now, pick) => ApplyContact(Progress(t, [], {}, None), p, req, c, now, pick).t
    case WildcardStep(aor, d, now, pick) => UnregisterAll(t, aor, Some(d), now, pick)
    case RemovalStep(k, d, now) => UnregisterBinding(t, k, d, now)
    case SweepStep(now) => Sweep(t, now)
  }

  ghost function Run(t: Tables, ss: seq<Step>): Tables
    requires ValidRun(ss)
  {
    if ss == [] then t else Next(Run(t, ss[..|ss| - 1]), ss[|ss| - 1])
  }

  function ContactSteps(p: Policy, req: Request, cs: seq<Contact>, now: nat, pick: Pick): (r: seq<Step>)
    ensures |r| == |cs| && forall i :: 0 <= i < |cs| ==> r[i] == ContactStep(p, req, cs[i], now, pick)
  {
    seq(|cs|, i requires 0 <= i < |cs| => ContactStep(p, req, cs[i], now, pick))
  }

  /** Processing a REGISTER is a run of its contacts. */
  lemma {:induction false} ContactsAreSteps(t: Tables, p: Policy, req: Request, cs: seq<Contact>, now: nat, pick: Pick)
    requires ValidPick(pick)
    ensures ApplyContacts(t, p, req, cs, now, pick).t == Run(t, ContactSteps(p, req, cs, now, pick))
  {
    if cs != [] {
      hide IsOutOfOrder, Register, UnregisterBinding;
      var init := cs[..|cs| - 1];
      ContactsAreSteps(t, p, req, init, now, pick);
      var ss := ContactSteps(p, req, cs, now, pick);
      assert ss[..|ss| - 1] == ContactSteps(p, req, init, now, pick);
      assert ss[|ss| - 1] == ContactStep(p, req, cs[|cs| - 1], now, pick);
    }
  }

  /** The steps a whole REGISTER consists of. */
  ghost function ProcessSteps(p: Policy, req: Request, now: nat, pick: Pick): seq<Step> {
    if req.wildcard then
      if req.contacts == [] && req.expiresHeader == Some(0) then [WildcardStep(req.aor, DialogOf(req), now, pick)]
          else []
    else if |req.contacts| > MAX_CONTACTS || AnyTooBrief(p, req) then []
    else ContactSteps(p, req, req.contacts, now, pick)
  }

  /** Processing a REGISTER is a run of its steps, whatever the outcome. */
  lemma ProcessIsRun(t: Tables, p: Policy, req: Request, now: nat, pick: Pick)
    requires ValidPick(pick)
    ensures ValidRun(ProcessSteps(p, req, now, pick))
    ensures Process(t, p, req, now, pick).0 == Run(t, ProcessSteps(p, req, now, pick))
  {
    hide UnregisterAll, ApplyContacts, Lookup, AnyTooBrief, ApplyContact, UnregisterBinding, Sweep;
    if req.wildcard {
      RunOne(t, WildcardStep(req.aor, DialogOf(req), now, pick));
    } else {
      ContactsAreSteps(t, p, req, req.contacts, now, pick);
    }
  }

  lemma RunOne(t: Tables, s: Step)
    requires ValidStep(s)
    ensures Run(t, [s]) == Next(t, s)
  {
    hide Next;
    assert [s][..0] == [];
    assert Run(t, []) == t;
  }

  lemma StepOk(t: Tables, s: Step)
    requires ValidStep(s) && TablesOk(t)
    ensures TablesOk(Next(t, s))
  {
    hide TablesOk, ApplyContact, UnregisterAll, UnregisterBinding, Sweep;
    match s {
      case ContactStep(p, req, c, now, pick) => ApplyContactOk(Progress(t, [], {}, None), p, req, c, now, pick);
      case WildcardStep(aor, d, now, pick) => UnregisterAllOk(t, aor, Some(d), now, pick);
      case RemovalStep(k, d, now) => UnregisterOk(t, k, d, now);
      case SweepStep(now) => SweepOk(t, now);
    }
  }

  lemma {:induction false} RunOk(t: Tables, ss: seq<Step>)
    requires ValidRun(ss) && TablesOk(t)
    ensures TablesOk(Run(t, ss))
  {
    hide TablesOk, Next;
    if ss != [] {
      RunOk(t, ss[..|ss| - 1]);
      StepOk(Run(t, ss[..|ss| - 1]), ss[|ss| - 1]);
    }
  }

  lemma EmptyOk()
    ensures TablesOk(Tables(map[], map[]))
  {
    assert forall aor :: AorKeys(map[], aor) == {};
  }

  /** In every reachable state: own keys, at most 10 bindings per AOR, 5000 in all
      and 4096 tombstones. */
  lemma ReachableTablesOk(ss: seq<Step>)
    requires ValidRun(ss)
    ensures var t := Run(Tables(map[], map[]), ss);
            && (forall k :: k in t.regs ==> k == (t.regs[k].aor, BindingKey(t.regs[k].contact, t.regs[k].instanceId,
                                                                            t.regs[k].regId)))
            && (forall aor :: |AorKeys(t.regs, aor)| <= 10) && |t.regs| <= 5000 && |t.tombs| <= 4096
  {
    hide Run, BindingKey, AorKeys;
    assert TablesOk(Run(Tables(map[], map[]), ss)) by {
      hide TablesOk;
      EmptyOk();
      RunOk(Tables(map[], map[]), ss);
    }
  }
}
