/** The registrar at the grain of its lock sections. The order test of a contact, the
    change of the binding table and the note in the tombstone table are each locked on
    their own, so requests handled at the same time can fall in between. */
module RegistrarSections {
  import opened Prelude
  import opened Registrar
  import opened RegistrarRuns
  import opened RegistrarOrder

  /** A step of module RegistrarRuns as a whole, or one locked section of a contact whose
      order test was passed earlier. */
  datatype Section =
    | Whole(step: Step)
    | Bind(policy: Policy, req: Request, contact: Contact, at: nat, pick: Pick)
    | Unbind(key: Key, dialog: Option<Dialog>, at: nat)
    | UnbindEvery(aor: string, dialog: Option<Dialog>, at: nat)
    | Note(key: Key, dialog: Option<Dialog>, at: nat)

  ghost predicate ValidSection(x: Section) {
    (x.Whole? ==> ValidStep(x.step)) && (x.Bind? ==> ValidPick(x.pick))
  }

  ghost predicate ValidSections(xs: seq<Section>) { forall i :: 0 <= i < |xs| ==> ValidSection(xs[i]) }

  function TimeOf(x: Section): nat { if x.Whole? then x.step.now else x.at }

  ghost function After(t: Tables, x: Section): Tables
    requires ValidSection(x)
  {
    match x
    case Whole(s) => Next(t, s)
    case Bind(p, req, c, now, pick) => Register(t, NewReg(p, req, c, now), pick)
    case Unbind(k, d, now) => if k !in t.regs || Protected(t.regs[k], d, now) then t else t.(regs := t.regs - {k})
    case UnbindEvery(aor, d, now) => t.(regs := t.regs - WildcardKeys(t, aor, d))
    case Note(k, d, now) => t.(tombs := Entomb(t.tombs, k, d, now))
  }

  ghost function AfterAll(t: Tables, xs: seq<Section>): Tables
    requires ValidSections(xs)
  {
    if xs == [] then t else After(AfterAll(t, xs[..|xs| - 1]), xs[|xs| - 1])
  }

  // ------------------------------------------------------------------
  // What a section that comes late can do
  // ------------------------------------------------------------------

  /** The change of a contact that passed its order test earlier. */
  ghost function LateChange(t: Tables, p: Policy, req: Request, c: Contact, now: nat, pick: Pick): Tables
    requires ValidPick(pick)
  {
    if Granted(p, req, c) == 0 then UnregisterBinding(t, ContactKey(req, c), Some(DialogOf(req)), now)
    else Register(t, NewReg(p, req, c, now), pick)
  }

  /** The change alone breaks the order if and only if the key was removed meanwhile: a
      request that has become out of order still changes its key exactly when the key
      has no binding and the request binds. A newer binding is respected, because
      `register` and `unregister_binding` look at it again; a newer tombstone is not. */
  lemma LateChangeBreaksOrderIff(t: Tables, p: Policy, req: Request, c: Contact, now: nat, pick: Pick)
    requires ValidPick(pick) && IsOutOfOrder(t, ContactKey(req, c), DialogOf(req), now)
    ensures var k := ContactKey(req, c);
            ViewOf(LateChange(t, p, req, c, now, pick), k, now) != ViewOf(t, k, now) <==>
              k !in t.regs && Granted(p, req, c) > 0
  {
    hide BindingKey, Live, MakeRoom, Entomb, Granted;
    assert KeyOf(NewReg(p, req, c, now)) == ContactKey(req, c);
  }

  /** Does the section bind the key, or write its tombstone, without an order test? */
  predicate Late(x: Section, k: Key) {
    (x.Bind? && ContactKey(x.req, x.contact) == k) || (x.Note? && x.key == k)
  }

  /** Nobody claims the key with a newer request, and no section that comes late writes it. */
  predicate LeavesAlone(x: Section, k: Key, tomb: Tomb) {
    if x.Whole? then NoNewerClaim(x.step, k, tomb) else !Late(x, k)
  }

  lemma SectionKeepsRemoval(t: Tables, x: Section, k: Key)
    requires ValidSection(x) && k !in t.regs && k in t.tombs && Live(t.tombs[k], TimeOf(x))
    requires LeavesAlone(x, k, t.tombs[k])
    ensures k !in After(t, x).regs && k in After(t, x).tombs && After(t, x).tombs[k] == t.tombs[k]
  {
    hide Live, BindingKey, MakeRoom;
    match x
    case Whole(s) => RemovalSticksOneStep(t, s, k);
    case Bind(p, req, c, now, pick) =>
      assert KeyOf(NewReg(p, req, c, now)) == ContactKey(req, c);
      MakeRoomWorks(t.regs, req.aor, pick);
    case Unbind(j, d, now) =>
    case UnbindEvery(aor, d, now) =>
    case Note(j, d, now) => EntombOther(t.tombs, j, d, now, k);
  }

  /** At this grain too a recorded removal lasts its 64 seconds, through every
      interleaving in which nobody claims the key with a newer request and no late
      section binds it or notes another removal of it. */
  lemma {:induction false} RemovalSticksInSections(t: Tables, xs: seq<Section>, k: Key)
    requires ValidSections(xs) && k !in t.regs && k in t.tombs
    requires forall i :: 0 <= i < |xs| ==> TimeOf(xs[i]) < t.tombs[k].at + 64_000 && LeavesAlone(xs[i], k, t.tombs[k])
    ensures var t' := AfterAll(t, xs); k !in t'.regs && k in t'.tombs && t'.tombs[k] == t.tombs[k]
  {
    hide After, LeavesAlone, TimeOf;
    if xs != [] {
      assert Live(t.tombs[k], TimeOf(xs[|xs| - 1]));
      hide Live;
      var init := xs[..|xs| - 1];
      assert forall i :: 0 <= i < |init| ==> init[i] == xs[i];
      RemovalSticksInSections(t, init, k);
      SectionKeepsRemoval(AfterAll(t, init), xs[|xs| - 1], k);
    }
  }

  /** The race: a contact with CSeq 5 passes its order test against the binding with CSeq
      4, the removal with CSeq 6 comes in between and is recorded, and the late binding
      undoes it. `k` is bound again, by the older request. */
  lemma RaceUndoesRemoval(t: Tables, p: Policy, req: Request, c: Contact, now: nat, pick: Pick)
    requires ValidPick(pick) && Granted(p, req, c) > 0 && req.cseq == 5
    requires var k := ContactKey(req, c); k in t.regs && t.regs[k].callId == req.callId && t.regs[k].cseq == 4
    requires |t.tombs| < MAX_TOMBSTONES
    ensures var k := ContactKey(req, c);
            var newer := Dialog(req.callId, 6);
            var removed := UnregisterBinding(t, k, Some(newer), now);
            var undone := After(removed, Bind(p, req, c, now, pick));
            && !IsOutOfOrder(t, k, DialogOf(req), now)
            && Owner(removed, k, now) == Some(newer) && k !in removed.regs
            && Owner(undone, k, now) == Some(DialogOf(req)) && k in undone.regs
  {
    hide BindingKey, MakeRoom, Granted;
    assert KeyOf(NewReg(p, req, c, now)) == ContactKey(req, c);
  }
}
