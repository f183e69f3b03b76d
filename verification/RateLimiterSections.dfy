/** The sliding-window limiter under concurrent requests. `check` locks its map for one
    operation at a time, so between the size test of a request and its insertion other
    requests can come in. (With a limit of 0 no check begins.) */
module RateLimiterSections {
  import opened Prelude
  import opened RateLimiter

  // ------------------------------------------------------------------
  // Checks in flight
  // ------------------------------------------------------------------

  /** How far a check has come: sweeping idle clients, looking whether that was enough,
      choosing the least recently seen, removing it, inserting its own hit. */
  datatype Phase = Sweeping | Measuring | Choosing | Removing(victim: Ip) | Inserting

  /** A check in flight; `novel` says whether its client was unknown at the size test. */
  datatype Flight = Flight(ip: Ip, now: nat, novel: bool, phase: Phase)

  datatype State = State(table: Table, flights: map<nat, Flight>)

  datatype Step =
    | Begin(id: nat, ip: Ip, now: nat)
    | Sweep(id: nat)
    | Measure(id: nat)
    | Choose(id: nat, victim: Ip)
    | Remove(id: nat)
    | Insert(id: nat)

  predicate InPhase(s: State, id: nat, phase: Phase) { id in s.flights && s.flights[id].phase == phase }

  function Moved(s: State, id: nat, phase: Phase): State
    requires id in s.flights
  {
    s.(flights := s.flights[id := s.flights[id].(phase := phase)])
  }

  /** The deque of a client after a check. */
  function Noted(cfg: Config, m: Table, ip: Ip, now: nat): seq<nat> {
    var hits := Pruned(cfg, Hits(m, ip), now);
    if |hits| >= cfg.limit then hits else hits + [now]
  }

  /** One map operation; a step that is not enabled changes nothing. */
  function Next(cfg: Config, s: State, step: Step): State {
    match step
    case Begin(id, ip, now) =>
      if id in s.flights then s
      else
        var novel := ip !in s.table;
        var phase := if novel && |s.table| >= MAX_CLIENTS then Sweeping else Inserting;
        s.(flights := s.flights[id := Flight(ip, now, novel, phase)])
    case Sweep(id) =>
      if !InPhase(s, id, Sweeping) then s
      else Moved(s.(table := Active(cfg, s.table, s.flights[id].now)), id, Measuring)
    case Measure(id) =>
      if !InPhase(s, id, Measuring) then s
      else Moved(s, id, if |s.table| < MAX_CLIENTS then Inserting else Choosing)
    case Choose(id, victim) =>
      if !InPhase(s, id, Choosing) || !LeastRecent(s.table, victim, s.flights[id].now) then s
      else Moved(s, id, Removing(victim))
    case Remove(id) =>
      if id !in s.flights || !s.flights[id].phase.Removing? then s
      else Moved(s.(table := s.table - {s.flights[id].phase.victim}), id, Inserting)
    case Insert(id) =>
      if !InPhase(s, id, Inserting) then s
      else
        var f := s.flights[id];
        State(s.table[f.ip := Noted(cfg, s.table, f.ip, f.now)], s.flights - {id})
  }

  function Run(cfg: Config, s: State, steps: seq<Step>): State {
    if steps == [] then s else Next(cfg, Run(cfg, s, steps[..|steps| - 1]), steps[|steps| - 1])
  }

  lemma RunSnoc(cfg: Config, s: State, steps: seq<Step>, x: Step)
    ensures Run(cfg, s, steps + [x]) == Next(cfg, Run(cfg, s, steps), x)
  {
    hide Next;
    assert (steps + [x])[..|steps|] == steps;
  }

  // Single steps, spelled out.

  lemma SweepStep(cfg: Config, s: State, id: nat)
    ensures Next(cfg, s, Sweep(id)) == if !InPhase(s, id, Sweeping) then s
                                       else Moved(s.(table := Active(cfg, s.table, s.flights[id].now)), id, Measuring)
  {
    hide Active;
  }

  lemma RemoveStep(cfg: Config, s: State, id: nat, v: Ip)
    requires InPhase(s, id, Removing(v))
    ensures Next(cfg, s, Remove(id)) == Moved(s.(table := s.table - {v}), id, Inserting)
  {
  }

  lemma InsertStep(cfg: Config, s: State, id: nat)
    requires InPhase(s, id, Inserting)
    ensures var f := s.flights[id];
            Next(cfg, s, Insert(id)) == State(s.table[f.ip := Noted(cfg, s.table, f.ip, f.now)], s.flights - {id})
  {
    hide Noted;
  }

  /** Two checks in flight. */
  function Pair(m: Table, f: Flight, g: Flight): State { State(m, map[0 := f, 1 := g]) }

  lemma MovedPair(m: Table, f: Flight, g: Flight, phase: Phase)
    ensures Moved(Pair(m, f, g), 0, phase) == Pair(m, f.(phase := phase), g)
    ensures Moved(Pair(m, f, g), 1, phase) == Pair(m, f, g.(phase := phase))
  {
    assert map[0 := f, 1 := g][0 := f.(phase := phase)] == map[0 := f.(phase := phase), 1 := g];
    assert map[0 := f, 1 := g][1 := g.(phase := phase)] == map[0 := f, 1 := g.(phase := phase)];
  }

  // ------------------------------------------------------------------
  // Where the cap fails
  // ------------------------------------------------------------------

  lemma Grown(m: Table, ip: Ip, hits: seq<nat>)
    requires ip !in m
    ensures |m[ip := hits]| == |m| + 1
  {
    assert m[ip := hits].Keys == m.Keys + {ip};
  }

  /** Two unknown clients waiting to be inserted, and inserted one after the other. */
  lemma InsertBoth(cfg: Config, m: Table, f: Flight, g: Flight)
    requires f.phase == Inserting && g.phase == Inserting && f.ip !in m && g.ip !in m && f.ip != g.ip
    ensures |Next(cfg, Next(cfg, Pair(m, f, g), Insert(0)), Insert(1)).table| == |m| + 2
  {
    hide Next, Noted;
    var s0 := Pair(m, f, g);
    InsertStep(cfg, s0, 0);
    var s1 := Next(cfg, s0, Insert(0));
    Grown(m, f.ip, Noted(cfg, m, f.ip, f.now));
    InsertStep(cfg, s1, 1);
    Grown(s1.table, g.ip, Noted(cfg, s1.table, g.ip, g.now));
  }

  lemma Four(cfg: Config, s: State, a: Step, b: Step, c: Step, d: Step)
    ensures Run(cfg, s, [a, b, c, d]) == Next(cfg, Next(cfg, Next(cfg, Next(cfg, s, a), b), c), d)
  {
    hide Next;
    assert Run(cfg, s, []) == s;
    RunSnoc(cfg, s, [], a);
    RunSnoc(cfg, s, [a], b);
    RunSnoc(cfg, s, [a, b], c);
    RunSnoc(cfg, s, [a, b, c], d);
    assert [] + [a] == [a] && [a] + [b] == [a, b] && [a, b] + [c] == [a, b, c] && [a, b, c] + [d] == [a, b, c, d];
  }

  /** Two unknown clients begin before either goes on. */
  lemma BeginBoth(cfg: Config, m: Table, x: Ip, y: Ip, now: nat)
    requires x !in m && y !in m
    ensures var phase := if |m| >= MAX_CLIENTS then Sweeping else Inserting;
            Next(cfg, Next(cfg, State(m, map[]), Begin(0, x, now)), Begin(1, y, now))
            == Pair(m, Flight(x, now, true, phase), Flight(y, now, true, phase))
  {
  }

  /** One below the cap, two unknown clients whose size tests both come before either is
      inserted: the table ends one above the cap. */
  lemma TwoNewcomersOverfill(cfg: Config, m: Table, x: Ip, y: Ip, now: nat)
    requires |m| == 4095 && x !in m && y !in m && x != y
    ensures |Run(cfg, State(m, map[]), [Begin(0, x, now), Begin(1, y, now), Insert(0), Insert(1)]).table|
            == MAX_CLIENTS + 1
  {
    hide Next, Run, Pair;
    Four(cfg, State(m, map[]), Begin(0, x, now), Begin(1, y, now), Insert(0), Insert(1));
    BeginBoth(cfg, m, x, y, now);
    InsertBoth(cfg, m, Flight(x, now, true, Inserting), Flight(y, now, true, Inserting));
  }

  /** `n` clients with one hit each. */
  function Crowd(n: nat): Table { if n == 0 then map[] else Crowd(n - 1)[seq(n, _ => 'x') := [0]] }

  lemma {:induction false} CrowdSize(n: nat)
    ensures |Crowd(n)| == n && forall ip :: ip in Crowd(n) ==> 1 <= |ip| <= n && ip[0] == 'x'
  {
    if n > 0 {
      CrowdSize(n - 1);
      Grown(Crowd(n - 1), seq(n, _ => 'x'), [0]);
    }
  }

  /** For instance 4095 clients, and two more. */
  lemma CrowdOverfills(cfg: Config, now: nat)
    ensures |Run(cfg, State(Crowd(4095), map[]),
                 [Begin(0, "y", now), Begin(1, "z", now), Insert(0), Insert(1)]).table| == MAX_CLIENTS + 1
  {
    hide Run, Crowd;
    CrowdSize(MAX_CLIENTS - 1);
    assert "y"[0] == 'y' && "z"[0] == 'z';
    TwoNewcomersOverfill(cfg, Crowd(MAX_CLIENTS - 1), "y", "z", now);
  }

  /** Two checks that chose the same client remove one and insert two: the table grows. */
  lemma SameVictimGrows(cfg: Config, m: Table, f: Flight, g: Flight, v: Ip)
    requires v in m && f.ip !in m && g.ip !in m && f.ip != g.ip && f.phase == Removing(v) == g.phase
    ensures |Run(cfg, Pair(m, f, g), [Remove(0), Remove(1), Insert(0), Insert(1)]).table| == |m| + 1
  {
    hide Next, Run;
    var s0, f', g' := Pair(m, f, g), f.(phase := Inserting), g.(phase := Inserting);
    RemoveStep(cfg, s0, 0, v);
    MovedPair(m - {v}, f, g, Inserting);
    var s1 := Pair(m - {v}, f', g);
    assert Next(cfg, s0, Remove(0)) == s1;
    RemoveStep(cfg, s1, 1, v);
    MovedPair(m - {v} - {v}, f', g, Inserting);
    assert m - {v} - {v} == m - {v} && (m - {v}).Keys == m.Keys - {v};
    InsertBoth(cfg, m - {v}, f', g');
    Four(cfg, s0, Remove(0), Remove(1), Insert(0), Insert(1));
  }

  /** And so they do: two unknown clients that begin on a full table of active clients can
      both choose the least recently seen one. Every such pair adds one more client above
      the cap, without limit. */
  lemma BothChooseTheSame(cfg: Config, m: Table, x: Ip, y: Ip, now: nat, v: Ip)
    requires |m| >= 4096 && Active(cfg, m, now) == m && LeastRecent(m, v, now) && x !in m && y !in m
    ensures Run(cfg, Run(cfg, State(m, map[]), [Begin(0, x, now), Begin(1, y, now), Sweep(0), Sweep(1)]),
                [Measure(0), Measure(1), Choose(0, v), Choose(1, v)])
            == Pair(m, Flight(x, now, true, Removing(v)), Flight(y, now, true, Removing(v)))
  {
    hide Run;
    var s0 := State(m, map[]);
    Four(cfg, s0, Begin(0, x, now), Begin(1, y, now), Sweep(0), Sweep(1));
    BeginBoth(cfg, m, x, y, now);
    SweepBoth(cfg, m, Flight(x, now, true, Sweeping), Flight(y, now, true, Sweeping));
    ChooseBoth(cfg, m, Flight(x, now, true, Measuring), Flight(y, now, true, Measuring), v);
    var s4 := Pair(m, Flight(x, now, true, Measuring), Flight(y, now, true, Measuring));
    hide Next, Pair;
    Four(cfg, s4, Measure(0), Measure(1), Choose(0, v), Choose(1, v));
  }

  lemma SweepBoth(cfg: Config, m: Table, f: Flight, g: Flight)
    requires f.phase == Sweeping == g.phase && Active(cfg, m, f.now) == m == Active(cfg, m, g.now)
    ensures Next(cfg, Next(cfg, Pair(m, f, g), Sweep(0)), Sweep(1))
            == Pair(m, f.(phase := Measuring), g.(phase := Measuring))
  {
    hide Active, Next;
    var f' := f.(phase := Measuring);
    SweepStep(cfg, Pair(m, f, g), 0);
    MovedPair(m, f, g, Measuring);
    SweepStep(cfg, Pair(m, f', g), 1);
    MovedPair(m, f', g, Measuring);
  }

  lemma MeasureStep(cfg: Config, s: State, id: nat)
    requires InPhase(s, id, Measuring)
    ensures Next(cfg, s, Measure(id)) == Moved(s, id, if |s.table| < MAX_CLIENTS then Inserting else Choosing)
  {
  }

  lemma ChooseStep(cfg: Config, s: State, id: nat, v: Ip)
    requires InPhase(s, id, Choosing) && LeastRecent(s.table, v, s.flights[id].now)
    ensures Next(cfg, s, Choose(id, v)) == Moved(s, id, Removing(v))
  {
    hide LeastRecent;
  }

  lemma ChooseBoth(cfg: Config, m: Table, f: Flight, g: Flight, v: Ip)
    requires |m| >= 4096 && f.phase == Measuring == g.phase
    requires LeastRecent(m, v, f.now) && LeastRecent(m, v, g.now)
    ensures var measured := Next(cfg, Next(cfg, Pair(m, f, g), Measure(0)), Measure(1));
            Next(cfg, Next(cfg, measured, Choose(0, v)), Choose(1, v))
            == Pair(m, f.(phase := Removing(v)), g.(phase := Removing(v)))
  {
    hide Next, LeastRecent;
    var f1, g1, f2 := f.(phase := Choosing), g.(phase := Choosing), f.(phase := Removing(v));
    MeasureStep(cfg, Pair(m, f, g), 0);
    MovedPair(m, f, g, Choosing);
    MeasureStep(cfg, Pair(m, f1, g), 1);
    MovedPair(m, f1, g, Choosing);
    ChooseStep(cfg, Pair(m, f1, g1), 0, v);
    MovedPair(m, f1, g1, Removing(v));
    ChooseStep(cfg, Pair(m, f2, g1), 1, v);
    MovedPair(m, f2, g1, Removing(v));
  }

  // ------------------------------------------------------------------
  // Where it holds
  // ------------------------------------------------------------------

  /** The insertion of an unknown client into a full table. */
  predicate Overfills(s: State, step: Step) {
    step.Insert? && InPhase(s, step.id, Inserting) && s.flights[step.id].ip !in s.table && |s.table| >= 4096
  }

  lemma SubTable(a: Table, b: Table)
    requires a.Keys <= b.Keys
    ensures |a| <= |b|
  {
    SubsetSize(a.Keys, b.Keys);
  }

  /** The only operation that can exceed the cap, and it does exactly then. */
  lemma StepWithinCapIff(cfg: Config, s: State, step: Step)
    requires |s.table| <= MAX_CLIENTS
    ensures |Next(cfg, s, step).table| <= 4096 <==> !Overfills(s, step)
  {
    hide Noted, LeastRecent;
    var s' := Next(cfg, s, step);
    if step.Insert? && InPhase(s, step.id, Inserting) {
      var ip := s.flights[step.id].ip;
      if ip in s.table { assert s'.table.Keys == s.table.Keys; SubTable(s'.table, s.table); }
      else { Grown(s.table, ip, s'.table[ip]); }
    } else {
      SubTable(s'.table, s.table);
    }
  }

  /** A check of an unknown client begins only when nothing is in flight, and while it is
      in flight nothing else begins. */
  ghost predicate NewcomersAlone(cfg: Config, s: State, steps: seq<Step>) {
    forall i :: 0 <= i < |steps| && steps[i].Begin? ==> MayBegin(Run(cfg, s, steps[..i]), steps[i].ip)
  }

  ghost predicate MayBegin(s: State, ip: Ip) {
    if ip in s.table then forall id :: id in s.flights ==> !s.flights[id].novel else s.flights == map[]
  }

  /** Known clients in flight stay known; an unknown one is alone, and is let in only
      when there is room for it. */
  ghost predicate Orderly(s: State) {
    && |s.table| <= 4096
    && (forall id :: id in s.flights && !s.flights[id].novel ==>
          s.flights[id].phase == Inserting && s.flights[id].ip in s.table)
    && (forall id :: id in s.flights && s.flights[id].novel ==>
          && s.flights.Keys == {id}
          && (s.flights[id].phase == Inserting ==> |s.table| < 4096)
          && (s.flights[id].phase.Removing? ==> s.flights[id].phase.victim in s.table))
  }

  lemma BeginOrderly(cfg: Config, s: State, id: nat, ip: Ip, now: nat)
    requires Orderly(s) && MayBegin(s, ip)
    ensures Orderly(Next(cfg, s, Begin(id, ip, now)))
  {
    var s' := Next(cfg, s, Begin(id, ip, now));
    if s' != s && ip !in s.table { assert s'.flights.Keys == {id}; }
  }

  lemma InsertOrderly(cfg: Config, s: State, id: nat)
    requires Orderly(s)
    ensures Orderly(Next(cfg, s, Insert(id)))
  {
    hide Noted;
    StepWithinCapIff(cfg, s, Insert(id));
    var s' := Next(cfg, s, Insert(id));
    if InPhase(s, id, Inserting) && s.flights[id].novel { assert s'.flights == map[]; }
  }

  /** The steps in which an unknown client makes room: it is alone. */
  lemma RoomOrderly(cfg: Config, s: State, step: Step)
    requires Orderly(s) && !step.Begin? && !step.Insert?
    ensures Orderly(Next(cfg, s, step))
  {
    hide Active;
    StepWithinCapIff(cfg, s, step);
    var s', id := Next(cfg, s, step), step.id;
    if s' != s {
      assert s.flights[id].novel;
      assert s.flights.Keys == {id} == s'.flights.Keys;
      if step.Remove? { assert s'.table.Keys == s.table.Keys - {s.flights[id].phase.victim}; }
    }
  }

  lemma StepOrderly(cfg: Config, s: State, step: Step)
    requires Orderly(s) && (step.Begin? ==> MayBegin(s, step.ip))
    ensures Orderly(Next(cfg, s, step))
  {
    hide Next, Orderly, MayBegin;
    match step
    case Begin(id, ip, now) => BeginOrderly(cfg, s, id, ip, now);
    case Insert(id) => InsertOrderly(cfg, s, id);
    case _ => RoomOrderly(cfg, s, step);
  }

  /** Under that condition the cap holds through every interleaving. */
  lemma {:induction false} CapHoldsWhenAlone(cfg: Config, s: State, steps: seq<Step>)
    requires Orderly(s) && NewcomersAlone(cfg, s, steps)
    ensures Orderly(Run(cfg, s, steps)) && |Run(cfg, s, steps).table| <= 4096
  {
    hide Next, Orderly, MayBegin;
    if steps == [] {
      WithinCap(s);
    } else {
      var n := |steps| - 1;
      var init := steps[..n];
      assert forall i :: 0 <= i < n ==> init[..i] == steps[..i];
      CapHoldsWhenAlone(cfg, s, init);
      StepOrderly(cfg, Run(cfg, s, init), steps[n]);
      WithinCap(Run(cfg, s, steps));
    }
  }

  lemma WithinCap(s: State)
    requires Orderly(s)
    ensures |s.table| <= 4096
  {
  }

  /** A single check in flight. */
  function Only(m: Table, f: Flight): State { State(m, map[0 := f]) }

  lemma MovedOnly(m: Table, f: Flight, phase: Phase)
    ensures Moved(Only(m, f), 0, phase) == Only(m, f.(phase := phase))
  {
    assert map[0 := f][0 := f.(phase := phase)] == map[0 := f.(phase := phase)];
  }

  /** Everything a check does between its size test and its insertion. */
  function Prepare(cfg: Config, s: State, victim: Ip): State {
    Next(cfg, Next(cfg, Next(cfg, Next(cfg, s, Sweep(0)), Measure(0)), Choose(0, victim)), Remove(0))
  }

  lemma PrepareOnly(cfg: Config, m: Table, f: Flight, victim: Ip)
    requires f.phase == Sweeping
    requires |Active(cfg, m, f.now)| >= MAX_CLIENTS ==> LeastRecent(Active(cfg, m, f.now), victim, f.now)
    ensures Prepare(cfg, Only(m, f), victim) == Only(MakeRoom(cfg, m, f.now, victim), f.(phase := Inserting))
  {
    hide Next, Active, LeastRecent;
    var a, f1 := Active(cfg, m, f.now), f.(phase := Measuring);
    SweepStep(cfg, Only(m, f), 0);
    MovedOnly(a, f, Measuring);
    MeasureStep(cfg, Only(a, f1), 0);
    if |a| < MAX_CLIENTS {
      var f2 := f.(phase := Inserting);
      MovedOnly(a, f1, Inserting);
      Idle(cfg, Only(a, f2), victim);
    } else {
      var f2, f3 := f.(phase := Choosing), f.(phase := Removing(victim));
      MovedOnly(a, f1, Choosing);
      ChooseStep(cfg, Only(a, f2), 0, victim);
      MovedOnly(a, f2, Removing(victim));
      RemoveStep(cfg, Only(a, f3), 0, victim);
      MovedOnly(a - {victim}, f3, Inserting);
    }
  }

  /** Steps of a check that is ready to insert change nothing. */
  lemma Idle(cfg: Config, s: State, victim: Ip)
    requires InPhase(s, 0, Inserting)
    ensures Next(cfg, s, Sweep(0)) == Next(cfg, s, Measure(0)) == Next(cfg, s, Choose(0, victim)) == s
    ensures Next(cfg, s, Remove(0)) == s
  {
  }

  /** A check that runs alone is the atomic check of module RateLimiter. */
  lemma AloneIsAtomic(cfg: Config, m: Table, ip: Ip, now: nat, victim: Ip)
    requires cfg.limit > 0 && GoodVictim(cfg, m, ip, now, victim)
    ensures var begun := Next(cfg, State(m, map[]), Begin(0, ip, now));
            Next(cfg, Prepare(cfg, begun, victim), Insert(0)) == State(Check(cfg, m, ip, now, victim).0, map[])
  {
    hide Active, LeastRecent, Pruned, Hits;
    var phase := if ip !in m && |m| >= MAX_CLIENTS then Sweeping else Inserting;
    var f := Flight(ip, now, ip !in m, phase);
    assert Next(cfg, State(m, map[]), Begin(0, ip, now)) == Only(m, f);
    hide Next;
    if phase == Sweeping { PrepareOnly(cfg, m, f, victim); } else { Idle(cfg, Only(m, f), victim); }
    var ready := Only(Prepared(cfg, m, ip, now, victim), f.(phase := Inserting));
    assert Prepare(cfg, Only(m, f), victim) == ready;
    InsertStep(cfg, ready, 0);
    assert ready.flights - {0} == map[];
  }
}
