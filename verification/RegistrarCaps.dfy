/** What the caps of the registrar cost, and whom: evictions for room, and removals
    that find no room to be remembered. */
module RegistrarCaps {
  import opened Prelude
  import opened Registrar
  import opened RegistrarRuns
  import opened RegistrarOrder

  // ------------------------------------------------------------------
  // The per-AOR cap
  // ------------------------------------------------------------------

  /** Strictly first in the eviction order. */
  predicate Older(a: Reg, b: Reg) {
    a.registeredAtMs < b.registeredAtMs || (a.registeredAtMs == b.registeredAtMs && a.expiresAt < b.expiresAt)
  }

  /** No two bindings of the table are of the same age. */
  ghost predicate AgesDiffer(m: map<Key, Reg>) {
    forall i, j :: i in m && j in m && i != j ==> Older(m[i], m[j]) || Older(m[j], m[i])
  }

  /** Every binding of the AOR other than `k` itself is newer than `k`. */
  ghost predicate BeforeAll(m: map<Key, Reg>, aor: string, k: Key)
    requires k in m
  {
    forall a :: a in AorKeys(m, aor) && a != k ==> Older(m[k], m[a])
  }

  /** Some binding of the AOR is older than `k`. */
  ghost predicate AfterSome(m: map<Key, Reg>, aor: string, k: Key)
    requires k in m
  {
    exists a :: a in AorKeys(m, aor) && Older(m[a], m[k])
  }

  lemma WithoutOne(m: map<Key, Reg>, aor: string, v: Key)
    requires v in m
    ensures AorKeys(m - {v}, aor) == AorKeys(m, aor) - {v}
    ensures |AorKeys(m - {v}, aor)| == |AorKeys(m, aor)| - (if v.0 == aor then 1 else 0)
  {
    if v.0 != aor { assert AorKeys(m, aor) - {v} == AorKeys(m, aor); }
  }

  /** One round of an eviction. */
  lemma EvictStep(m: map<Key, Reg>, full: map<Key, Reg> -> bool, pick: Pick) returns (v: Key)
    requires ValidPick(pick) && m != map[] && full(m)
    ensures IsOldest(m, v) && Evict(m, full, pick) == Evict(m - {v}, full, pick)
  {
    OldestExists(m);
    v := pick(OldestKeys(m));
    assert v in OldestKeys(m);
  }

  lemma OldestIsFirst(m: map<Key, Reg>, v: Key, k: Key)
    requires IsOldest(m, v) && k in m
    ensures !Older(m[k], m[v])
  {
  }

  /** Losing a binding of another AOR changes neither test. */
  lemma TestsKept(m: map<Key, Reg>, aor: string, v: Key, k: Key)
    requires v in m && v.0 != aor && k in m && k != v
    ensures BeforeAll(m, aor, k) ==> BeforeAll(m - {v}, aor, k)
    ensures AfterSome(m, aor, k) ==> AfterSome(m - {v}, aor, k)
  {
    hide Older;
    WithoutOne(m, aor, v);
    if AfterSome(m, aor, k) {
      var a :| a in AorKeys(m, aor) && Older(m[a], m[k]);
      assert a in AorKeys(m - {v}, aor);
    }
  }

  lemma OldestOfAor(m: map<Key, Reg>, aor: string, v: Key, k: Key)
    requires IsOldest(m, v) && v.0 == aor && k in m
    ensures BeforeAll(m, aor, k) ==> k == v
    ensures AfterSome(m, aor, k) ==> k != v
  {
    hide Older, IsOldest;
    InTable(m, v);
    assert v in AorKeys(m, aor);
    forall j | j in m ensures !Older(m[j], m[v]) { OldestIsFirst(m, v, j); }
  }

  lemma InTable(m: map<Key, Reg>, v: Key)
    requires IsOldest(m, v)
    ensures v in m
  {
  }

  lemma NotAfter(m: map<Key, Reg>, aor: string, v: Key)
    requires IsOldest(m, v)
    ensures !AfterSome(m, aor, v)
  {
    forall j | j in m ensures !Older(m[j], m[v]) { OldestIsFirst(m, v, j); }
  }

  /** An AOR that holds exactly its ten makes room: everything older than all of its
      bindings goes, whoever owns it, and everything newer than one of them stays. */
  lemma {:induction false} AorCapTakes(m: map<Key, Reg>, aor: string, pick: Pick, k: Key)
    requires ValidPick(pick) && |AorKeys(m, aor)| == 10 && k in m
    ensures BeforeAll(m, aor, k) ==> k !in Evict(m, AorFull(aor), pick)
    ensures AfterSome(m, aor, k) ==> k in Evict(m, AorFull(aor), pick)
    decreases |m|
  {
    hide Evict, BeforeAll, AfterSome, IsOldest, ValidPick;
    assert AorKeys(map[], aor) == {};
    var v := EvictStep(m, AorFull(aor), pick);
    InTable(m, v);
    WithoutOne(m, aor, v);
    var rest := m - {v};
    if v.0 == aor {
      EvictDropsOldest(rest, AorFull(aor), pick);
      OldestOfAor(m, aor, v, k);
    } else if v == k {
      NotAfter(m, aor, v);
    } else {
      TestsKept(m, aor, v, k);
      AorCapTakes(rest, aor, pick, k);
    }
  }

  lemma Missing<T>(a: set<T>, b: set<T>) returns (x: T)
    requires |a| < |b|
    ensures x in b && x !in a
  {
    if b <= a { SubsetSize(b, a); }
    x :| x in b && x !in a;
  }

  /** A table that lost a binding of the AOR is smaller. */
  lemma AorLoss(r: map<Key, Reg>, m: map<Key, Reg>, aor: string) returns (x: Key)
    requires r.Keys <= m.Keys && |AorKeys(r, aor)| < |AorKeys(m, aor)|
    ensures x in m && x !in r && |r| < |m|
  {
    x := Missing(AorKeys(r, aor), AorKeys(m, aor));
    SubsetSize(r.Keys, m.Keys - {x});
  }

  /** Within the table cap, the per-AOR cap is all that making room for such an AOR does. */
  lemma OnlyAorCap(m: map<Key, Reg>, aor: string, pick: Pick)
    requires ValidPick(pick) && |AorKeys(m, aor)| >= 10 && |m| <= 5000
    ensures MakeRoom(m, aor, pick) == Evict(m, AorFull(aor), pick)
  {
    hide Evict;
    var r := Evict(m, AorFull(aor), pick);
    EvictDropsOldest(m, AorFull(aor), pick);
    assert AorKeys(map[], aor) == {};
    var x := AorLoss(r, m, aor);
    EvictDropsOldest(r, TableFull(), pick);
  }

  /** Exactly what a new binding of a full AOR costs when no two bindings are of the same
      age: a binding stays if and only if some binding of that AOR is older. So the
      AOR's own oldest goes, and with it every older binding of anybody. */
  lemma AorCapCostIff(m: map<Key, Reg>, aor: string, pick: Pick, k: Key)
    requires ValidPick(pick) && |AorKeys(m, aor)| == 10 && |m| <= 5000 && AgesDiffer(m) && k in m
    ensures k in MakeRoom(m, aor, pick) <==> AfterSome(m, aor, k)
  {
    hide MakeRoom, Evict;
    OnlyAorCap(m, aor, pick);
    AorCapTakes(m, aor, pick, k);
    if !AfterSome(m, aor, k) {
      forall a | a in AorKeys(m, aor) && a != k ensures Older(m[k], m[a]) {}
    }
  }

  /** So exactly when the AOR pays for its cap alone, as the program's comment wants it:
      if and only if every other AOR's bindings are newer than the AOR's oldest. */
  lemma AorPaysAloneIff(m: map<Key, Reg>, aor: string, pick: Pick)
    requires ValidPick(pick) && |AorKeys(m, aor)| == 10 && |m| <= 5000 && AgesDiffer(m)
    ensures (forall k :: k in m && k.0 != aor ==> k in MakeRoom(m, aor, pick)) <==>
              (forall k :: k in m && k.0 != aor ==> AfterSome(m, aor, k))
  {
    hide MakeRoom, AfterSome, AgesDiffer;
    forall k | k in m ensures k in MakeRoom(m, aor, pick) <==> AfterSome(m, aor, k) { AorCapCostIff(m, aor, pick, k); }
  }

  // ------------------------------------------------------------------
  // A table where another AOR pays
  // ------------------------------------------------------------------

  function Marks(n: nat): string { seq(n, _ => 'x') }

  /** The `n`-th contact of an AOR, registered at `at`. */
  function SampleReg(aor: string, n: nat, at: nat): Reg {
    Reg(aor, Marks(n), 3600, at, at / 1000 + 3600, "dialog", 1, None, Source("192.0.2.1", 5060, "UDP"), None, None,
        None)
  }

  function SampleKey(aor: string, n: nat): Key { KeyOf(SampleReg(aor, n, 0)) }

  lemma SampleKeysDiffer(aor: string, i: nat, j: nat)
    requires i != j
    ensures SampleKey(aor, i) != SampleKey(aor, j)
  {
    assert |SampleKey(aor, i).1| == 8 + i && |SampleKey(aor, j).1| == 8 + j;
  }

  /** `n` contacts of "alice", registered one after the other from second 100 on. */
  function AliceTable(n: nat): map<Key, Reg> {
    if n == 0 then map[]
    else AliceTable(n - 1)[SampleKey("alice", n - 1) := SampleReg("alice", n - 1, 100_000 + 1000 * n)]
  }

  lemma {:induction false} AliceLacks(n: nat, i: nat)
    requires i >= n
    ensures SampleKey("alice", i) !in AliceTable(n)
  {
    hide SampleKey, SampleReg;
    if n > 0 {
      AliceLacks(n - 1, i);
      SampleKeysDiffer("alice", i, n - 1);
    }
  }

  lemma SampleKeyOf(aor: string, n: nat, at: nat)
    ensures SampleKey(aor, n) == KeyOf(SampleReg(aor, n, at)) && SampleKey(aor, n).0 == aor
    ensures SampleReg(aor, n, at).registeredAtMs == at
  {
    hide BindingKey, Marks;
  }

  lemma {:induction false} AliceKeys(n: nat)
    ensures forall k :: k in AliceTable(n) ==>
              k.0 == "alice" && k == KeyOf(AliceTable(n)[k]) && AliceTable(n)[k].registeredAtMs > 100_000
  {
    hide SampleKey, SampleReg, KeyOf;
    if n > 0 {
      AliceKeys(n - 1);
      SampleKeyOf("alice", n - 1, 100_000 + 1000 * n);
    }
  }

  lemma {:induction false} AliceHas(n: nat)
    ensures |AorKeys(AliceTable(n), "alice")| == |AliceTable(n)| == n
  {
    hide SampleKey, SampleReg;
    if n == 0 {
      assert AorKeys(map[], "alice") == {};
    } else {
      AliceHas(n - 1);
      var m, k := AliceTable(n - 1), SampleKey("alice", n - 1);
      var r := SampleReg("alice", n - 1, 100_000 + 1000 * n);
      AorInsert(m, k, r, "alice");
      AliceLacks(n - 1, n - 1);
      SampleKeyOf("alice", n - 1, 0);
      assert m[k := r].Keys == m.Keys + {k};
    }
  }

  /** The ten of "alice", and the one of "bob" from second 0. */
  function PayingTable(): map<Key, Reg> { AliceTable(MAX_PER_AOR)[SampleKey("bob", 0) := SampleReg("bob", 0, 1)] }

  lemma PayingTableKeys()
    ensures var m, ten, bob := PayingTable(), AliceTable(MAX_PER_AOR), SampleKey("bob", 0);
            && m.Keys == ten.Keys + {bob} && |m| == MAX_PER_AOR + 1
            && AorKeys(m, "alice") == AorKeys(ten, "alice") && AorKeys(m, "bob") == {bob}
            && |AorKeys(m, "alice")| == MAX_PER_AOR
            && (forall k :: k in m ==> k == KeyOf(m[k]) && (k.0 == "alice" || k == bob))
            && (forall k :: k in AorKeys(m, "alice") ==> m[k].registeredAtMs > 100_000)
  {
    hide AliceTable, BindingKey, Marks;
    AliceHas(MAX_PER_AOR);
    AliceKeys(MAX_PER_AOR);
  }

  lemma PayingTableOk()
    ensures TablesOk(Tables(PayingTable(), map[]))
  {
    hide PayingTable, KeyOf, SampleKey;
    PayingTableKeys();
    var m := PayingTable();
    forall aor ensures |AorKeys(m, aor)| <= MAX_PER_AOR {
      if aor != "alice" { SubsetSize(AorKeys(m, aor), {SampleKey("bob", 0)}); }
    }
  }

  /** A sound table in which a new binding of "alice" costs "bob" his only one. */
  lemma AnotherAorPays(pick: Pick)
    requires ValidPick(pick)
    ensures TablesOk(Tables(PayingTable(), map[])) && |AorKeys(PayingTable(), "alice")| == MAX_PER_AOR
    ensures AorKeys(PayingTable(), "bob") == {SampleKey("bob", 0)}
    ensures SampleKey("bob", 0) !in MakeRoom(PayingTable(), "alice", pick)
  {
    hide AliceTable, MakeRoom, Evict, KeyOf, TablesOk, ValidPick;
    PayingTableKeys();
    PayingTableOk();
    var m, bob := PayingTable(), SampleKey("bob", 0);
    assert m[bob].registeredAtMs == 1;
    assert BeforeAll(m, "alice", bob);
    AorCapTakes(m, "alice", pick, bob);
    OnlyAorCap(m, "alice", pick);
  }

  // ------------------------------------------------------------------
  // When anything is evicted at all
  // ------------------------------------------------------------------

  lemma NoRoomNeeded(m: map<Key, Reg>, aor: string, pick: Pick)
    requires ValidPick(pick) && |AorKeys(m, aor)| < MAX_PER_AOR && |m| < MAX_TOTAL
    ensures MakeRoom(m, aor, pick) == m
  {
    hide Evict;
    EvictDropsOldest(m, AorFull(aor), pick);
    EvictDropsOldest(m, TableFull(), pick);
  }

  /** Only a new binding evicts. */
  lemma EvictsOnlyForNew(t: Tables, s: Step, k: Key)
    requires ValidStep(s) && Evicts(t, s, k)
    ensures BindsNew(t, s) && k !in MakeRoom(t.regs, s.req.aor, s.pick)
  {
    hide BindingKey, Live, Protected, MakeRoom, Entomb;
    assert KeyOf(NewReg(s.policy, s.req, s.contact, s.now)) == ContactKey(s.req, s.contact);
  }

  /** The step registers a key that has no binding yet. */
  ghost predicate BindsNew(t: Tables, s: Step) {
    && s.ContactStep? && ContactKey(s.req, s.contact) !in t.regs
    && !IsOutOfOrder(t, ContactKey(s.req, s.contact), DialogOf(s.req), s.now)
    && Granted(s.policy, s.req, s.contact) > 0
  }

  lemma BindsNewMakesRoom(t: Tables, s: Step)
    requires ValidStep(s) && BindsNew(t, s)
    ensures var k := ContactKey(s.req, s.contact);
            Next(t, s).regs == MakeRoom(t.regs, s.req.aor, s.pick)[k := NewReg(s.policy, s.req, s.contact, s.now)]
  {
    hide BindingKey, MakeRoom, Live, Entomb;
    assert KeyOf(NewReg(s.policy, s.req, s.contact, s.now)) == ContactKey(s.req, s.contact);
  }

  /** A new binding evicts somebody if and only if its AOR or the table is full. */
  lemma EvictsIffFull(t: Tables, s: Step)
    requires ValidStep(s) && BindsNew(t, s)
    ensures (exists k :: Evicts(t, s, k)) <==> |AorKeys(t.regs, s.req.aor)| >= 10 || |t.regs| >= 5000
  {
    hide MakeRoom, BindingKey, Next, IsOutOfOrder, Granted;
    var m, r := t.regs, MakeRoom(t.regs, s.req.aor, s.pick);
    BindsNewMakesRoom(t, s);
    MakeRoomWorks(m, s.req.aor, s.pick);
    if |AorKeys(m, s.req.aor)| >= MAX_PER_AOR {
      var k := AorLoss(r, m, s.req.aor);
      assert Evicts(t, s, k);
    } else if |m| >= MAX_TOTAL {
      var k := Missing(r.Keys, m.Keys);
      assert Evicts(t, s, k);
    } else {
      NoRoomNeeded(m, s.req.aor, s.pick);
    }
  }

  // ------------------------------------------------------------------
  // Removals that are not remembered
  // ------------------------------------------------------------------

  function TombOf(d: Dialog, now: nat): Tomb { Tomb(d.callId, d.cseq, now) }

  lemma PruneSmaller(tombs: map<Key, Tomb>, now: nat)
    ensures |Prune(tombs, now)| <= |tombs| && Prune(tombs, now).Keys <= tombs.Keys
  {
    SubsetSize(Prune(tombs, now).Keys, tombs.Keys);
  }

  /** A removal is recorded if and only if fewer than 4096 tombstones are still live. */
  lemma EntombIff(tombs: map<Key, Tomb>, k: Key, d: Dialog, now: nat)
    requires !(k in tombs && tombs[k] == TombOf(d, now))
    ensures var r := Entomb(tombs, k, Some(d), now);
            (k in r && r[k] == TombOf(d, now)) <==> |Prune(tombs, now)| < 4096
  {
    hide Live;
    PruneSmaller(tombs, now);
  }

  /** Exactly when a removal by a contact with interval 0, or by the registrar's callers,
      is forgotten: if and only if 4096 tombstones are still live. */
  lemma DropsIffFull(t: Tables, s: Step, k: Key)
    requires ValidStep(s) && (s.ContactStep? || s.RemovalStep?) && Names(s, k) && DialogOfStep(s).Some?
    requires k in t.regs && k !in Next(t, s).regs
    requires !(k in t.tombs && t.tombs[k] == TombOf(DialogOfStep(s).value, s.now))
    ensures Drops(t, s, k) <==> |Prune(t.tombs, s.now)| >= 4096
  {
    hide BindingKey, Live, MakeRoom, Prune, Entomb;
    var d := DialogOfStep(s).value;
    if s.ContactStep? { assert KeyOf(NewReg(s.policy, s.req, s.contact, s.now)) == k; }
    assert Next(t, s).tombs == Entomb(t.tombs, k, Some(d), s.now);
    EntombIff(t.tombs, k, d, s.now);
  }

  /** The keys a wildcard remembers. */
  ghost function Recorded(tombs: map<Key, Tomb>, keys: set<Key>, x: Tomb): set<Key> {
    set k | k in keys && k in tombs && tombs[k] == x
  }

  lemma EntombPruned(tombs: map<Key, Tomb>, k: Key, d: Dialog, now: nat)
    ensures var before, after := Prune(tombs, now), Prune(Entomb(tombs, k, Some(d), now), now);
            if |before| < MAX_TOMBSTONES then after == before[k := TombOf(d, now)] else after == before
    ensures |Prune(tombs, now)| >= 4096 ==> Entomb(tombs, k, Some(d), now) == Prune(tombs, now)
    ensures |Prune(tombs, now)| < 4096 ==>
              k in Entomb(tombs, k, Some(d), now) && Entomb(tombs, k, Some(d), now)[k] == TombOf(d, now)
  {
    PruneSmaller(tombs, now);
    FreshTombLives(d.callId, d.cseq, now);
    hide Live;
  }

  /** How many of the removals of a wildcard are recorded: as many as there is room for
      beside the tombstones still live, at least; exactly that many when none of the
      keys has a live tombstone already. */
  lemma {:induction false} WildcardRecords(tombs: map<Key, Tomb>, keys: set<Key>, d: Dialog, now: nat, pick: Pick)
    requires ValidPick(pick) && |Prune(tombs, now)| <= 4096
    ensures var n, room := |keys|, 4096 - |Prune(tombs, now)|;
            var recorded := |Recorded(EntombAll(tombs, keys, Some(d), now, pick), keys, TombOf(d, now))|;
            && Min(n, room) <= recorded <= n
            && (keys !! Prune(tombs, now).Keys ==> recorded == Min(n, room))
    decreases |keys|
  {
    hide Entomb, Prune, Recorded, ValidPick;
    if keys == {} {
      RecordedBounds(EntombAll(tombs, keys, Some(d), now, pick), keys, TombOf(d, now));
    } else {
      var k := Picked(keys, pick);
      var tombs1 := Entomb(tombs, k, Some(d), now);
      RoomLeft(tombs, k, d, now);
      WildcardRecords(tombs1, keys - {k}, d, now, pick);
      RecordedOne(tombs, keys, d, now, pick, k);
      RecordedBounds(EntombAll(tombs, keys, Some(d), now, pick), keys, TombOf(d, now));
    }
  }

  lemma RecordedBounds(tombs: map<Key, Tomb>, keys: set<Key>, x: Tomb)
    ensures |Recorded(tombs, keys, x)| <= |keys|
  {
    SubsetSize(Recorded(tombs, keys, x), keys);
  }

  lemma Picked(keys: set<Key>, pick: Pick) returns (k: Key)
    requires ValidPick(pick) && keys != {}
    ensures k == pick(keys) && k in keys
  {
    k := pick(keys);
  }

  /** The room after one more removal. */
  lemma RoomLeft(tombs: map<Key, Tomb>, k: Key, d: Dialog, now: nat)
    requires |Prune(tombs, now)| <= MAX_TOMBSTONES
    ensures var before, after := Prune(tombs, now), Prune(Entomb(tombs, k, Some(d), now), now);
            && |after| <= MAX_TOMBSTONES && |before| <= |after| <= |before| + 1
            && (|before| == MAX_TOMBSTONES ==> after == before)
            && (k !in before && |before| < MAX_TOMBSTONES ==> |after| == |before| + 1)
            && after.Keys <= before.Keys + {k}
  {
    hide Entomb, Prune;
    EntombPruned(tombs, k, d, now);
    var before, after := Prune(tombs, now), Prune(Entomb(tombs, k, Some(d), now), now);
    if |before| < MAX_TOMBSTONES {
      assert after.Keys == before.Keys + {k};
      if k in before { assert before.Keys + {k} == before.Keys; }
    }
  }

  /** What the first removal of a wildcard adds to what is recorded. */
  lemma RecordedOne(tombs: map<Key, Tomb>, keys: set<Key>, d: Dialog, now: nat, pick: Pick, k: Key)
    requires ValidPick(pick) && k in keys && k == pick(keys)
    ensures var x, rest, room := TombOf(d, now), keys - {k}, |Prune(tombs, now)| < MAX_TOMBSTONES;
            var final := EntombAll(tombs, keys, Some(d), now, pick);
            && final == EntombAll(Entomb(tombs, k, Some(d), now), rest, Some(d), now, pick)
            && |Recorded(final, rest, x)| <= |Recorded(final, keys, x)|
            && (room ==> |Recorded(final, keys, x)| == |Recorded(final, rest, x)| + 1)
            && (!room && k !in Prune(tombs, now) ==> |Recorded(final, keys, x)| == |Recorded(final, rest, x)|)
  {
    hide Entomb, Prune, Live, ValidPick;
    var x, rest := TombOf(d, now), keys - {k};
    var tombs1 := Entomb(tombs, k, Some(d), now);
    var final := EntombAll(tombs, keys, Some(d), now, pick);
    assert final == EntombAll(tombs1, rest, Some(d), now, pick);
    EntombPruned(tombs, k, d, now);
    FreshTombLives(d.callId, d.cseq, now);
    EntombAllOther(tombs1, rest, Some(d), now, pick, k);
    hide EntombAll;
    if k in final && final[k] == x {
      assert Recorded(final, keys, x) == Recorded(final, rest, x) + {k};
    } else {
      assert Recorded(final, keys, x) == Recorded(final, rest, x);
    }
  }

  /** The removals of a wildcard that are forgotten. */
  ghost function Forgotten(t: Tables, s: Step): set<Key>
    requires ValidStep(s) && s.WildcardStep?
  {
    set k | k in WildcardKeys(t, s.aor, Some(s.dialog)) && Drops(t, s, k)
  }

  /** How many removals a wildcard forgets: at most those beyond the room left beside the
      tombstones still live, and exactly those when no removed key has one already. */
  lemma WildcardForgets(t: Tables, s: Step)
    requires ValidStep(s) && s.WildcardStep? && |t.tombs| <= MAX_TOMBSTONES
    ensures var keys, live := WildcardKeys(t, s.aor, Some(s.dialog)), Prune(t.tombs, s.now);
            && |Forgotten(t, s)| <= SatSub(|keys| + |live|, MAX_TOMBSTONES)
            && (keys !! live.Keys ==> |Forgotten(t, s)| == SatSub(|keys| + |live|, MAX_TOMBSTONES))
  {
    hide EntombAll, Prune, ValidPick;
    var keys, x := WildcardKeys(t, s.aor, Some(s.dialog)), TombOf(s.dialog, s.now);
    PruneSmaller(t.tombs, s.now);
    WildcardRecords(t.tombs, keys, s.dialog, s.now, s.pick);
    var recorded := Recorded(Next(t, s).tombs, keys, x);
    assert Forgotten(t, s) == keys - recorded;
    assert |keys - recorded| == |keys| - |recorded| by { assert keys * recorded == recorded; }
  }

  // ------------------------------------------------------------------
  // A removal that is forgotten and undone
  // ------------------------------------------------------------------

  /** `n` removals of other keys at time `at`. */
  function ManyTombs(n: nat, at: nat): map<Key, Tomb> {
    if n == 0 then map[] else ManyTombs(n - 1, at)[SampleKey("busy", n - 1) := Tomb("other", 1, at)]
  }

  lemma {:induction false} ManyTombsLive(n: nat, at: nat)
    ensures |ManyTombs(n, at)| == n && Prune(ManyTombs(n, at), at) == ManyTombs(n, at)
    ensures forall k :: k in ManyTombs(n, at) ==> k.0 == "busy"
    ensures forall i :: i >= n ==> SampleKey("busy", i) !in ManyTombs(n, at)
  {
    hide BindingKey, Marks;
    if n > 0 {
      ManyTombsLive(n - 1, at);
      var m, k := ManyTombs(n - 1, at), SampleKey("busy", n - 1);
      assert ManyTombs(n, at).Keys == m.Keys + {k};
      forall i | i >= n ensures SampleKey("busy", i) !in ManyTombs(n, at) { SampleKeysDiffer("busy", i, n - 1); }
    }
  }

  function SampleRequest(cseq: nat, expires: nat): Request {
    Request("alice", [], false, Some(expires), "dialog", cseq, Source("192.0.2.1", 5060, "UDP"), None, None)
  }

  function SampleStep(cseq: nat, expires: nat, now: nat, pick: Pick): Step {
    ContactStep(Policy(60, 3600, 3600), SampleRequest(cseq, expires), Contact(Marks(0), None, None, None), now, pick)
  }

  /** A full tombstone table: the binding is removed with CSeq 6, nothing is remembered,
      and the older request with CSeq 5 brings it back. */
  lemma ForgottenRemovalUndone(pick: Pick)
    requires ValidPick(pick)
    ensures var k := SampleKey("alice", 0);
            var t := Tables(map[k := SampleReg("alice", 0, 1)], ManyTombs(MAX_TOMBSTONES, 9_000));
            var removed := Next(t, SampleStep(6, 0, 9_000, pick));
            && k !in removed.regs && Drops(t, SampleStep(6, 0, 9_000, pick), k)
            && k in Next(removed, SampleStep(5, 3600, 9_000, pick)).regs
  {
    hide BindingKey, Marks, ManyTombs, Prune, MakeRoom, Live;
    var k := SampleKey("alice", 0);
    var t := Tables(map[k := SampleReg("alice", 0, 1)], ManyTombs(MAX_TOMBSTONES, 9_000));
    ManyTombsLive(MAX_TOMBSTONES, 9_000);
    var s := SampleStep(6, 0, 9_000, pick);
    assert ContactKey(s.req, s.contact) == k;
    assert KeyOf(NewReg(s.policy, SampleRequest(5, 3600), s.contact, 9_000)) == k;
  }

  /** A wildcard whose own dialog has a binding that is not older keeps it, and answers
      that there is none. */
  lemma WildcardHidesKept(p: Policy, pick: Pick)
    requires ValidPick(pick)
    ensures var k := SampleKey("alice", 0);
            var t := Tables(map[k := SampleReg("alice", 0, 1)], map[]);
            var r := Process(t, p, SampleRequest(1, 0).(wildcard := true), 9_000, pick);
            r.1.Ok? && r.1.bindings == map[] && k in Lookup(r.0, "alice", 9_000)
  {
    hide BindingKey, Marks, EntombAll;
    var k := SampleKey("alice", 0);
    var t := Tables(map[k := SampleReg("alice", 0, 1)], map[]);
    assert k !in WildcardKeys(t, "alice", Some(Dialog("dialog", 1)));
  }
}
