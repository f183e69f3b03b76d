/** Section 10.3 (step 7) of RFC 3261 over runs of the registrar: who owns a key,
    and what an old request can and cannot undo. */
module RegistrarOrder {
  import opened Prelude
  import opened Registrar
  import opened RegistrarRuns

  // ------------------------------------------------------------------
  // Owners
  // ------------------------------------------------------------------

  datatype KeyView = Bound(reg: Reg) | Removed(tomb: Tomb) | Absent

  /** What the registrar knows of a key: its binding, else its live tombstone. */
  function ViewOf(t: Tables, k: Key, now: nat): KeyView {
    if k in t.regs then Bound(t.regs[k])
    else if k in t.tombs && Live(t.tombs[k], now) then Removed(t.tombs[k])
    else Absent
  }

  function OwnerOf(v: KeyView): Option<Dialog> {
    match v
    case Bound(r) => Some(Dialog(r.callId, r.cseq))
    case Removed(x) => Some(Dialog(x.callId, x.cseq))
    case Absent => None
  }

  function Owner(t: Tables, k: Key, now: nat): Option<Dialog> { OwnerOf(ViewOf(t, k, now)) }

  /** Out of order is exactly: not newer than the owner, in the owner's dialog. */
  lemma OutOfOrderIsAboutOwner(t: Tables, k: Key, d: Dialog, now: nat)
    ensures IsOutOfOrder(t, k, d, now) <==>
              Owner(t, k, now).Some? && NotNewerRequest(Owner(t, k, now).value.callId, Owner(t, k, now).value.cseq, d)
  {
  }

  function DialogOfStep(s: Step): Option<Dialog> {
    match s
    case ContactStep(_, req, _, _, _) => Some(DialogOf(req))
    case WildcardStep(_, d, _, _) => Some(d)
    case RemovalStep(_, d, _) => d
    case SweepStep(_) => None
  }

  /** Does the step name this key? */
  predicate Names(s: Step, k: Key) {
    match s
    case ContactStep(_, req, c, _, _) => ContactKey(req, c) == k
    case WildcardStep(aor, _, _, _) => k.0 == aor
    case RemovalStep(key, _, _) => key == k
    case SweepStep(_) => false
  }

  /** The step lost the binding of another key to a cap. */
  ghost predicate Evicts(t: Tables, s: Step, k: Key)
    requires ValidStep(s)
  {
    s.ContactStep? && !Names(s, k) && k in t.regs && k !in Next(t, s).regs
  }

  /** The step removed the binding and found no room to remember it. */
  ghost predicate Drops(t: Tables, s: Step, k: Key)
    requires ValidStep(s)
  {
    && Names(s, k) && DialogOfStep(s).Some? && k in t.regs && k !in Next(t, s).regs
    && !(k in Next(t, s).tombs
         && Next(t, s).tombs[k] == Tomb(DialogOfStep(s).value.callId, DialogOfStep(s).value.cseq, s.now))
  }

  // ------------------------------------------------------------------
  // What one operation does to one key
  // ------------------------------------------------------------------

  lemma EntombOther(tombs: map<Key, Tomb>, j: Key, d: Option<Dialog>, now: nat, k: Key)
    requires j != k
    ensures var r := Entomb(tombs, j, d, now);
            && (k in r ==> k in tombs && r[k] == tombs[k])
            && (k in tombs && Live(tombs[k], now) ==> k in r)
  {
  }

  lemma {:induction false} EntombAllOther(tombs: map<Key, Tomb>, keys: set<Key>, d: Option<Dialog>, now: nat,
                                          pick: Pick, k: Key)
    requires ValidPick(pick) && k !in keys
    ensures var r := EntombAll(tombs, keys, d, now, pick);
            && (k in r ==> k in tombs && r[k] == tombs[k])
            && (k in tombs && Live(tombs[k], now) ==> k in r)
    decreases |keys|
  {
    if keys != {} {
      hide Live;
      var j := pick(keys);
      EntombOther(tombs, j, d, now, k);
      hide Entomb;
      EntombAllOther(Entomb(tombs, j, d, now), keys - {j}, d, now, pick, k);
    }
  }

  /** A contact or removal of another key leaves this one alone, unless a cap takes it. */
  lemma OtherKeyUntouched(t: Tables, s: Step, k: Key)
    requires ValidStep(s) && !Names(s, k) && !s.SweepStep? && !Evicts(t, s, k)
    ensures ViewOf(Next(t, s), k, s.now) == ViewOf(t, k, s.now)
  {
    hide BindingKey, Live, Protected;
    match s
    case ContactStep(p, req, c, now, pick) =>
      var j := ContactKey(req, c);
      EntombOther(t.tombs, j, Some(DialogOf(req)), now, k);
      hide Entomb, MakeRoom;
      assert KeyOf(NewReg(p, req, c, now)) == j;
      MakeRoomWorks(t.regs, req.aor, pick);
    case WildcardStep(aor, d, now, pick) =>
      EntombAllOther(t.tombs, WildcardKeys(t, aor, Some(d)), Some(d), now, pick, k);
      hide EntombAll;
    case RemovalStep(j, d, now) =>
      EntombOther(t.tombs, j, d, now, k);
      hide Entomb;
  }

  /** A request that names the key, in its owner's dialog and not newer, changes nothing. */
  lemma OldRequestChangesNothing(t: Tables, s: Step, k: Key)
    requires ValidStep(s) && (s.ContactStep? || s.WildcardStep?) && Names(s, k)
    requires IsOutOfOrder(t, k, DialogOfStep(s).value, s.now)
    ensures ViewOf(Next(t, s), k, s.now) == ViewOf(t, k, s.now)
  {
    hide BindingKey, Live;
    match s
    case ContactStep(p, req, c, now, pick) =>
    case WildcardStep(aor, d, now, pick) =>
      assert k !in WildcardKeys(t, aor, Some(d));
      EntombAllOther(t.tombs, WildcardKeys(t, aor, Some(d)), Some(d), now, pick, k);
      hide EntombAll;
  }

  lemma FreshTombLives(callId: string, cseq: nat, now: nat)
    ensures Live(Tomb(callId, cseq, now), now)
  {
  }

  /** A request that names the key and changes it becomes its owner. */
  lemma ChangeTakesOwnership(t: Tables, s: Step, k: Key)
    requires ValidStep(s) && (s.ContactStep? || s.WildcardStep?) && Names(s, k) && !Drops(t, s, k)
    requires ViewOf(Next(t, s), k, s.now) != ViewOf(t, k, s.now)
    ensures Owner(Next(t, s), k, s.now) == DialogOfStep(s)
  {
    hide BindingKey, Live;
    match s
    case ContactStep(p, req, c, now, pick) =>
      hide MakeRoom, Entomb, Protected;
      assert KeyOf(NewReg(p, req, c, now)) == k;
      FreshTombLives(req.callId, req.cseq, now);
    case WildcardStep(aor, d, now, pick) =>
      if k !in WildcardKeys(t, aor, Some(d)) {
        EntombAllOther(t.tombs, WildcardKeys(t, aor, Some(d)), Some(d), now, pick, k);
      }
      hide EntombAll;
      FreshTombLives(d.callId, d.cseq, now);
  }

  /** The order of section 10.3 (step 7): a request of the owner's own dialog that
      changes the key has a strictly higher CSeq and becomes the new owner, unless a
      cap evicted the binding or its tombstone found no room. */
  lemma OwnDialogMustAdvance(t: Tables, s: Step, k: Key)
    requires ValidStep(s) && (s.ContactStep? || s.WildcardStep?) && !Evicts(t, s, k) && !Drops(t, s, k)
    requires Owner(t, k, s.now).Some? && Owner(t, k, s.now).value.callId == DialogOfStep(s).value.callId
    requires ViewOf(Next(t, s), k, s.now) != ViewOf(t, k, s.now)
    ensures DialogOfStep(s).value.cseq > Owner(t, k, s.now).value.cseq
    ensures Owner(Next(t, s), k, s.now) == DialogOfStep(s)
  {
    hide Next, ViewOf, Evicts, Drops, Names;
    if !Names(s, k) { OtherKeyUntouched(t, s, k); }
    OutOfOrderIsAboutOwner(t, k, DialogOfStep(s).value, s.now);
    if IsOutOfOrder(t, k, DialogOfStep(s).value, s.now) { OldRequestChangesNothing(t, s, k); }
    ChangeTakesOwnership(t, s, k);
  }

  /** No contact of the request loses this key to a cap, or its tombstone for lack of room. */
  ghost predicate Undisturbed(t: Tables, ss: seq<Step>, k: Key)
    requires ValidRun(ss)
  {
    forall i :: 0 <= i < |ss| ==> !Evicts(Run(t, ss[..i]), ss[i], k) && !Drops(Run(t, ss[..i]), ss[i], k)
  }

  lemma SameDialogAgain(t: Tables, s: Step, k: Key, d: Dialog)
    requires ValidStep(s) && (s.ContactStep? || s.WildcardStep?) && !Evicts(t, s, k)
    requires DialogOfStep(s) == Some(d) && Owner(t, k, s.now) == Some(d)
    ensures ViewOf(Next(t, s), k, s.now) == ViewOf(t, k, s.now)
  {
    hide Next, ViewOf, Evicts, Names;
    OutOfOrderIsAboutOwner(t, k, d, s.now);
    if Names(s, k) { OldRequestChangesNothing(t, s, k); } else { OtherKeyUntouched(t, s, k); }
  }

  /** The same over the steps of one request. */
  lemma {:induction false} StepsMustAdvance(t: Tables, ss: seq<Step>, k: Key, d: Dialog, now: nat)
    requires ValidRun(ss) && Undisturbed(t, ss, k)
    requires forall i :: 0 <= i < |ss| ==>
               (ss[i].ContactStep? || ss[i].WildcardStep?) && DialogOfStep(ss[i]) == Some(d) && ss[i].now == now
    requires Owner(t, k, now).Some? && Owner(t, k, now).value.callId == d.callId
    ensures ViewOf(Run(t, ss), k, now) == ViewOf(t, k, now)
            || (d.cseq > Owner(t, k, now).value.cseq && Owner(Run(t, ss), k, now) == Some(d))
  {
    hide Next, ViewOf, Evicts, Drops, Names;
    if ss != [] {
      var n := |ss| - 1;
      var init := ss[..n];
      assert forall i :: 0 <= i < n ==> init[..i] == ss[..i];
      StepsMustAdvance(t, init, k, d, now);
      var before := Run(t, init);
      if ViewOf(before, k, now) == ViewOf(t, k, now) {
        if ViewOf(Next(before, ss[n]), k, now) != ViewOf(before, k, now) { OwnDialogMustAdvance(before, ss[n], k); }
      } else {
        SameDialogAgain(before, ss[n], k, d);
      }
    }
  }

  /** The order rule for a whole REGISTER, all its contacts together: when it comes from
      the dialog of the key's owner and changes the key, its CSeq is strictly higher
      and it is the new owner. */
  lemma RequestMustAdvance(t: Tables, p: Policy, req: Request, now: nat, pick: Pick, k: Key)
    requires ValidPick(pick) && ValidRun(ProcessSteps(p, req, now, pick))
    requires Undisturbed(t, ProcessSteps(p, req, now, pick), k)
    requires Owner(t, k, now).Some? && Owner(t, k, now).value.callId == req.callId
    requires ViewOf(Process(t, p, req, now, pick).0, k, now) != ViewOf(t, k, now)
    ensures req.cseq > Owner(t, k, now).value.cseq
    ensures Owner(Process(t, p, req, now, pick).0, k, now) == Some(DialogOf(req))
  {
    hide Process, Run, ViewOf, Undisturbed, AnyTooBrief;
    ProcessIsRun(t, p, req, now, pick);
    StepsMustAdvance(t, ProcessSteps(p, req, now, pick), k, DialogOf(req), now);
  }

  // ------------------------------------------------------------------
  // Removals stick
  // ------------------------------------------------------------------

  /** The step does not bind the key, unless it is out of order for the tombstone. */
  predicate NoNewerClaim(s: Step, k: Key, x: Tomb) {
    s.ContactStep? && Names(s, k) ==> s.req.callId == x.callId && s.req.cseq <= x.cseq
  }

  lemma RemovalSticksOneStep(t: Tables, s: Step, k: Key)
    requires ValidStep(s) && k !in t.regs && k in t.tombs && Live(t.tombs[k], s.now)
    requires NoNewerClaim(s, k, t.tombs[k])
    ensures k !in Next(t, s).regs && k in Next(t, s).tombs && Next(t, s).tombs[k] == t.tombs[k]
  {
    hide Live;
    if s.SweepStep? {
    } else if Names(s, k) && (s.ContactStep? || s.WildcardStep?) {
      if s.ContactStep? {
        assert IsOutOfOrder(t, k, DialogOf(s.req), s.now);
        OldRequestChangesNothing(t, s, k);
      } else {
        assert k !in WildcardKeys(t, s.aor, Some(s.dialog));
        EntombAllOther(t.tombs, WildcardKeys(t, s.aor, Some(s.dialog)), Some(s.dialog), s.now, s.pick, k);
      }
    } else if !Names(s, k) {
      hide Next, Names;
      OtherKeyUntouched(t, s, k);
    }
  }

  /** A recorded removal survives every run of requests for other keys, wildcards,
      removals and sweeps, at any load, for its 64 seconds, as long as whoever names
      the key again is the removing dialog with a CSeq that is not higher. */
  lemma {:induction false} RemovalSticks(t: Tables, ss: seq<Step>, k: Key)
    requires ValidRun(ss) && k !in t.regs && k in t.tombs
    requires forall i :: 0 <= i < |ss| ==> ss[i].now < t.tombs[k].at + 64_000 && NoNewerClaim(ss[i], k, t.tombs[k])
    ensures k !in Run(t, ss).regs && k in Run(t, ss).tombs && Run(t, ss).tombs[k] == t.tombs[k]
  {
    hide Next, NoNewerClaim;
    if ss != [] {
      assert Live(t.tombs[k], ss[|ss| - 1].now);
      hide Live;
      var init := ss[..|ss| - 1];
      assert forall i :: 0 <= i < |init| ==> init[i] == ss[i];
      RemovalSticks(t, init, k);
      RemovalSticksOneStep(Run(t, init), ss[|ss| - 1], k);
    }
  }

  /** So whatever brings a removed binding back within 64 seconds is a contact of
      another dialog or of the same dialog with a higher CSeq. */
  lemma {:induction false} ResurrectionNeedsNewerRequest(t: Tables, ss: seq<Step>, k: Key)
    requires ValidRun(ss) && k !in t.regs && k in t.tombs
    requires forall i :: 0 <= i < |ss| ==> ss[i].now < t.tombs[k].at + 64_000
    requires k in Run(t, ss).regs
    ensures exists i :: 0 <= i < |ss| && ss[i].ContactStep? && Names(ss[i], k)
                        && (ss[i].req.callId != t.tombs[k].callId || ss[i].req.cseq > t.tombs[k].cseq)
  {
    hide Next, Live, Names;
    if forall i :: 0 <= i < |ss| ==> NoNewerClaim(ss[i], k, t.tombs[k]) {
      RemovalSticks(t, ss, k);
    }
  }

  /** The limit of that protection: another dialog that binds the key and removes it
      again takes the tombstone over, and then no request of the first dialog is out
      of order any more, however old. */
  lemma ForeignRemovalReopens(t: Tables, bind: Step, unbind: Step, k: Key, cseq: nat, now: nat)
    requires ValidStep(bind) && ValidStep(unbind) && bind.ContactStep? && unbind.ContactStep?
    requires Names(bind, k) && Names(unbind, k) && bind.req.callId == unbind.req.callId
    requires k !in t.regs && k in t.tombs && bind.req.callId != t.tombs[k].callId
    requires Granted(bind.policy, bind.req, bind.contact) > 0 && Granted(unbind.policy, unbind.req, unbind.contact) == 0
    requires bind.req.cseq < unbind.req.cseq
    requires !Drops(Next(t, bind), unbind, k)
    ensures !IsOutOfOrder(Next(Next(t, bind), unbind), k, Dialog(t.tombs[k].callId, cseq), now)
  {
    hide BindingKey, Live, MakeRoom, Entomb;
    assert KeyOf(NewReg(bind.policy, bind.req, bind.contact, bind.now)) == k;
    var t1 := Next(t, bind);
    assert k in t1.regs && t1.regs[k].callId == bind.req.callId && t1.regs[k].cseq == bind.req.cseq;
    assert k !in Next(t1, unbind).regs;
  }

  // ------------------------------------------------------------------
  // Within one dialog the owner only advances
  // ------------------------------------------------------------------

  /** Who holds a key, by binding or by tombstone. */
  function Holder(t: Tables, k: Key): Option<Dialog> {
    if k in t.regs then Some(Dialog(t.regs[k].callId, t.regs[k].cseq))
    else if k in t.tombs then Some(Dialog(t.tombs[k].callId, t.tombs[k].cseq))
    else None
  }

  /** The step is one the order can be claimed for: whoever names the key is the
      dialog `callId`, no cap interferes, and neither binding nor tombstone ages out. */
  ghost predicate Orderly(t: Tables, s: Step, k: Key, callId: string)
    requires ValidStep(s)
  {
    && (Names(s, k) ==> DialogOfStep(s).Some? && DialogOfStep(s).value.callId == callId)
    && !Evicts(t, s, k) && !Drops(t, s, k)
    && (k in t.regs ==> Unexpired(t.regs[k], s.now))
    && (k !in t.regs && k in t.tombs ==> Live(t.tombs[k], s.now))
  }

  ghost predicate OrderlyRun(t: Tables, ss: seq<Step>, k: Key, callId: string)
    requires ValidRun(ss)
  {
    forall i :: 0 <= i < |ss| ==> Orderly(Run(t, ss[..i]), ss[i], k, callId)
  }

  lemma HolderIsOwner(t: Tables, k: Key, now: nat)
    requires k !in t.regs && k in t.tombs ==> Live(t.tombs[k], now)
    ensures Holder(t, k) == Owner(t, k, now)
  {
  }

  lemma ViewDecidesHolder(t: Tables, t': Tables, k: Key, now: nat)
    requires ViewOf(t, k, now) == ViewOf(t', k, now) && ViewOf(t, k, now) != Absent
    ensures Holder(t, k) == Holder(t', k)
  {
  }

  lemma HolderAdvancesOneStep(t: Tables, s: Step, k: Key, callId: string)
    requires ValidStep(s) && Orderly(t, s, k, callId)
    requires Holder(t, k).Some? && Holder(t, k).value.callId == callId
    ensures Holder(Next(t, s), k).Some? && Holder(Next(t, s), k).value.callId == callId
    ensures Holder(t, k).value.cseq <= Holder(Next(t, s), k).value.cseq
    ensures ViewOf(Next(t, s), k, s.now) != ViewOf(t, k, s.now) ==>
              Holder(t, k).value.cseq < Holder(Next(t, s), k).value.cseq
  {
    hide Live;
    HolderIsOwner(t, k, s.now);
    if s.SweepStep? {
      hide BindingKey;
    } else if s.RemovalStep? && Names(s, k) {
      RemovalAdvances(t, s, k);
    } else {
      hide Next, Evicts, Drops, Names, Unexpired;
      if ViewOf(Next(t, s), k, s.now) == ViewOf(t, k, s.now) {
        hide ViewOf;
        OwnedIsPresent(t, k, s.now);
        ViewDecidesHolder(t, Next(t, s), k, s.now);
      } else {
        if !Names(s, k) { OtherKeyUntouched(t, s, k); }
        OwnDialogMustAdvance(t, s, k);
        OwnerIsHolder(Next(t, s), k, s.now);
      }
    }
  }

  lemma OwnedIsPresent(t: Tables, k: Key, now: nat)
    requires Owner(t, k, now).Some?
    ensures ViewOf(t, k, now) != Absent
  {
  }

  lemma OwnerIsHolder(t: Tables, k: Key, now: nat)
    requires Owner(t, k, now).Some?
    ensures Holder(t, k) == Owner(t, k, now)
  {
  }

  lemma RemovalAdvances(t: Tables, s: Step, k: Key)
    requires s.RemovalStep? && s.key == k && s.remover.Some? && !Drops(t, s, k)
    requires Holder(t, k).Some? && Holder(t, k).value.callId == s.remover.value.callId
    ensures Next(t, s) == t
            || (Holder(Next(t, s), k) == s.remover && Holder(t, k).value.cseq < s.remover.value.cseq)
  {
    hide Entomb;
  }

  /** Over every run in which only one dialog names the key and no cap or expiry
      interferes, the key stays with that dialog, its CSeq never falls, and every
      step that changes the key raises it. */
  lemma {:induction false} OwnerOnlyAdvances(t: Tables, ss: seq<Step>, k: Key, callId: string, i: nat)
    requires ValidRun(ss) && OrderlyRun(t, ss, k, callId) && i <= |ss|
    requires Holder(t, k).Some? && Holder(t, k).value.callId == callId
    ensures Holder(Run(t, ss[..i]), k).Some? && Holder(Run(t, ss), k).Some?
    ensures Holder(Run(t, ss[..i]), k).value.callId == callId == Holder(Run(t, ss), k).value.callId
    ensures Holder(Run(t, ss[..i]), k).value.cseq <= Holder(Run(t, ss), k).value.cseq
    ensures i < |ss| && ViewOf(Run(t, ss[..i + 1]), k, ss[i].now) != ViewOf(Run(t, ss[..i]), k, ss[i].now) ==>
              Holder(Run(t, ss[..i]), k).value.cseq < Holder(Run(t, ss), k).value.cseq
    decreases |ss|
  {
    hide Next, Holder, Orderly, ViewOf;
    if ss == [] {
      assert ss[..i] == ss;
    } else {
      var n := |ss| - 1;
      var init := ss[..n];
      assert forall j :: 0 <= j <= n ==> init[..j] == ss[..j];
      assert OrderlyRun(t, init, k, callId);
      assert Orderly(Run(t, ss[..n]), ss[n], k, callId);
      OwnerOnlyAdvances(t, init, k, callId, if i <= n then i else n);
      HolderAdvancesOneStep(Run(t, init), ss[n], k, callId);
      assert ss[..n + 1] == ss;
    }
  }

  // ------------------------------------------------------------------
  // Admission and replies
  // ------------------------------------------------------------------

  /** Once a request is found in order, neither `register` nor `unregister_binding`
      aborts on its own CSeq check: the first binds the request's dialog, the second
      keeps a binding only against another dialog's race window. */
  lemma SecondCheckNeverTaken(t: Tables, p: Policy, req: Request, c: Contact, now: nat, pick: Pick)
    requires ValidPick(pick) && !IsOutOfOrder(t, ContactKey(req, c), DialogOf(req), now)
    ensures var k := ContactKey(req, c);
            var t' := Register(t, NewReg(p, req, c, now), pick);
            k in t'.regs && t'.regs[k].callId == req.callId && t'.regs[k].cseq == req.cseq
    ensures var k := ContactKey(req, c);
            k in t.regs && t.regs[k].callId == req.callId ==>
                k !in UnregisterBinding(t, k, Some(DialogOf(req)), now).regs
  {
    hide BindingKey, MakeRoom, Entomb, Live;
    assert KeyOf(NewReg(p, req, c, now)) == ContactKey(req, c);
  }

  /** Admission is all or nothing: a 400 or a 423 leaves both tables as they were,
      and nothing is stored unless no contact asked for too short an interval. */
  lemma AllOrNothing(t: Tables, p: Policy, req: Request, now: nat, pick: Pick)
    requires ValidPick(pick)
    ensures !Process(t, p, req, now, pick).1.Ok? ==> Process(t, p, req, now, pick).0 == t
    ensures Process(t, p, req, now, pick).0 != t && !req.wildcard ==>
              forall c :: c in req.contacts ==> Asked(p, req, c) == 0 || Asked(p, req, c) >= p.minExpires
  {
    hide ApplyContacts, UnregisterAll, Lookup;
  }

  ghost predicate InRange(p: Policy, a: Progress) {
    && (a.granted.Some? ==> p.minExpires <= a.granted.value <= p.maxExpires)
    && (forall i :: 0 <= i < |a.registered| ==> p.minExpires <= a.registered[i].expires <= p.maxExpires)
  }

  lemma GrantedRange(p: Policy, req: Request, c: Contact)
    requires Sound(p) && !TooBrief(p, req, c) && Granted(p, req, c) != 0
    ensures p.minExpires <= Granted(p, req, c) <= p.maxExpires
  {
  }

  lemma ContactInRange(a: Progress, p: Policy, req: Request, c: Contact, now: nat, pick: Pick)
    requires ValidPick(pick) && Sound(p) && !TooBrief(p, req, c) && InRange(p, a)
    ensures InRange(p, ApplyContact(a, p, req, c, now, pick))
  {
    hide BindingKey, MakeRoom, UnregisterBinding, IsOutOfOrder, Granted, TooBrief, Sound;
    if Granted(p, req, c) != 0 && !IsOutOfOrder(a.t, ContactKey(req, c), DialogOf(req), now) {
      GrantedRange(p, req, c);
      assert KeyOf(NewReg(p, req, c, now)) == ContactKey(req, c);
      SecondCheckNeverTaken(a.t, p, req, c, now, pick);
      if ContactKey(req, c) in a.t.regs { NotOutOfOrder(a.t, ContactKey(req, c), DialogOf(req), now); }
    }
  }

  lemma NotOutOfOrder(t: Tables, k: Key, d: Dialog, now: nat)
    requires !IsOutOfOrder(t, k, d, now) && k in t.regs
    ensures !NotNewerRequest(t.regs[k].callId, t.regs[k].cseq, d)
  {
  }

  lemma {:induction false} ContactsInRange(t: Tables, p: Policy, req: Request, cs: seq<Contact>, now: nat, pick: Pick)
    requires ValidPick(pick) && Sound(p) && forall c :: c in cs ==> !TooBrief(p, req, c)
    ensures InRange(p, ApplyContacts(t, p, req, cs, now, pick))
  {
    hide ApplyContact, TooBrief, Sound;
    if cs != [] {
      hide InRange;
      ContactsInRange(t, p, req, cs[..|cs| - 1], now, pick);
      ContactInRange(ApplyContacts(t, p, req, cs[..|cs| - 1], now, pick), p, req, cs[|cs| - 1], now, pick);
    }
  }

  /** Under a policy from the configuration every interval granted and every binding
      registered lies between the minimum and the maximum. */
  lemma GrantsAreInRange(t: Tables, minExpires: nat, maxExpires: nat, defaultExpires: nat, req: Request, now: nat,
                         pick: Pick)
    requires ValidPick(pick)
    ensures var p := FromConfig(minExpires, maxExpires, defaultExpires);
            var out := Process(t, p, req, now, pick).1;
            out.Ok? ==>
              && (out.granted.Some? ==> p.minExpires <= out.granted.value <= p.maxExpires)
              && forall i :: 0 <= i < |out.registered| ==> p.minExpires <= out.registered[i].expires <= p.maxExpires
  {
    hide ApplyContacts, UnregisterAll, Lookup, TooBrief, FromConfig;
    var p := FromConfig(minExpires, maxExpires, defaultExpires);
    if !AnyTooBrief(p, req) {
      assert forall c :: c in req.contacts ==> !TooBrief(p, req, c);
      ContactsInRange(t, p, req, req.contacts, now, pick);
    }
  }

  /** Exactly when the reply to a wildcard is faithful: it always lists nothing, which
      is the truth unless an unexpired binding of its own dialog was not older. */
  lemma WildcardReplyFaithfulIff(t: Tables, p: Policy, req: Request, now: nat, pick: Pick)
    requires ValidPick(pick) && req.wildcard && Process(t, p, req, now, pick).1.Ok?
    ensures var r := Process(t, p, req, now, pick);
            r.1.bindings == Lookup(r.0, req.aor, now) <==>
              forall k :: k in t.regs && k.0 == req.aor && Unexpired(t.regs[k], now) ==>
                !NotNewerRequest(t.regs[k].callId, t.regs[k].cseq, DialogOf(req))
  {
    hide EntombAll, Unexpired;
    var t' := Process(t, p, req, now, pick).0;
    var found := Lookup(t', req.aor, now);
    if found != map[] {
      var k :| k in found;
      assert k in t.regs && k !in WildcardKeys(t, req.aor, Some(DialogOf(req)));
    } else {
      forall k | k in t.regs && k.0 == req.aor && Unexpired(t.regs[k], now)
        ensures !NotNewerRequest(t.regs[k].callId, t.regs[k].cseq, DialogOf(req))
      {
        assert k !in found;
      }
    }
  }
}
