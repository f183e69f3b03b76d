/** The CDR pipeline of `storage.rs` and `cdr_writer.rs`: producers, a bounded
    channel and one writer, as a state machine over their atomic steps, so that a
    run is any interleaving of inserts, flushes, commit failures and retries. */
module CdrQueue {
  import opened Prelude

  type Rec = string

  const CAPACITY := 8192
  const BATCH_MAX := 64
  const U64: nat := 0x1_0000_0000_0000_0000

  datatype Msg = Record(rec: Rec) | Flush(id: nat)

  /** Where the writer is. */
  datatype Writer =
    | Idle
    | Collecting(batch: seq<Rec>, flushes: seq<nat>)
    | Writing(batch: seq<Rec>, flushes: seq<nat>)
    | Counting(batch: seq<Rec>, flushes: seq<nat>)
    | Acking(flushes: seq<nat>)
    | Stopped

  /** A record the writer is done with: committed, or given up while stopping. */
  datatype Handed = Handed(rec: Rec, committed: bool)

  datatype State = State(
    channel: seq<Msg>,
    writer: Writer,
    slot: bool,            // the manager still holds its sender
    ready: nat,            // sender clones that have not sent yet
    uncounted: nat,        // inserts between their send and their count
    waiting: set<nat>,     // flushes waiting for their answer
    queueLen: nat,
    stopping: bool,
    queued: seq<Rec>,      // every record answered Queued, in order
    handed: seq<Handed>,   // every record the writer is done with, in order
    barriers: map<nat, nat>, // per flush sent, how many records were queued before it
    acked: set<nat>)

  const Init := State([], Idle, true, 0, 0, {}, 0, false, [], [], map[], {})

  datatype Step =
    | Acquire                // an insert or a flush clones the sender
    | TrySend(rec: Rec)
    | Count
    | SendFlush(id: nat)
    | Return(id: nat)        // a flush got its answer
    | Abandon(id: nat)       // a flush timed out in `close`
    | Stopping
    | TakeSlot
    | Receive
    | Collect
    | BeginWrite
    | Commit(ok: bool)
    | Subtract
    | Ack
    | Finish

  predicate Open(s: State) { s.slot || s.ready > 0 || s.uncounted > 0 || s.waiting != {} }

  /** One atomic step; a step that is not enabled changes nothing. */
  function Next(s: State, step: Step): State {
    match step
    case Acquire => if s.slot then s.(ready := s.ready + 1) else s
    case TrySend(r) =>
      if s.ready == 0 then s
      else if |s.channel| < CAPACITY then
        s.(ready := s.ready - 1, uncounted := s.uncounted + 1, channel := s.channel + [Record(r)],
           queued := s.queued + [r])
      else s.(ready := s.ready - 1)
    case Count =>
      if s.uncounted == 0 then s else s.(uncounted := s.uncounted - 1, queueLen := (s.queueLen + 1) % U64)
    case SendFlush(id) =>
      if s.ready == 0 || |s.channel| >= CAPACITY || id in s.barriers then s
      else s.(ready := s.ready - 1, waiting := s.waiting + {id}, channel := s.channel + [Flush(id)],
              barriers := s.barriers[id := |s.queued|])
    case Return(id) => if id in s.acked then s.(waiting := s.waiting - {id}) else s
    case Abandon(id) => s.(waiting := s.waiting - {id})
    case Stopping => s.(stopping := true)
    case TakeSlot => s.(slot := false)
    case Receive =>
      if !s.writer.Idle? then s
      else if s.channel == [] then (if Open(s) then s else s.(writer := Stopped))
      else
        (match s.channel[0]
         case Record(r) => s.(channel := s.channel[1..], writer := Collecting([r], []))
         case Flush(id) => s.(channel := s.channel[1..], acked := s.acked + {id}))
    case Collect =>
      if !s.writer.Collecting? || |s.writer.batch| >= BATCH_MAX || s.channel == [] then s
      else
        (match s.channel[0]
         case Record(r) => s.(channel := s.channel[1..], writer := Collecting(s.writer.batch + [r], s.writer.flushes))
         case Flush(id) => s.(channel := s.channel[1..], writer := Collecting(s.writer.batch, s.writer.flushes + [id])))
    case BeginWrite =>
      if !s.writer.Collecting? || (|s.writer.batch| < BATCH_MAX && s.channel != []) then s
      else s.(writer := Writing(s.writer.batch, s.writer.flushes))
    case Commit(ok) =>
      if !s.writer.Writing? || (!ok && !s.stopping) then s
      else s.(handed := s.handed + Marked(s.writer.batch, ok), writer := Counting(s.writer.batch, s.writer.flushes))
    case Subtract =>
      if !s.writer.Counting? then s
      else s.(queueLen := (s.queueLen - |s.writer.batch|) % U64, writer := Acking(s.writer.flushes))
    case Ack =>
      if !s.writer.Acking? || s.writer.flushes == [] then s
      else s.(acked := s.acked + {s.writer.flushes[0]}, writer := Acking(s.writer.flushes[1..]))
    case Finish => if s.writer == Acking([]) then s.(writer := Idle) else s
  }

  predicate IsWriterStep(step: Step) {
    step.Receive? || step.Collect? || step.BeginWrite? || step.Commit? || step.Subtract? || step.Ack? || step.Finish?
  }

  function Run(s: State, steps: seq<Step>): State {
    if steps == [] then s else Next(Run(s, steps[..|steps| - 1]), steps[|steps| - 1])
  }

  function Marked(batch: seq<Rec>, ok: bool): (r: seq<Handed>)
    ensures |r| == |batch| && forall i :: 0 <= i < |r| ==> r[i] == Handed(batch[i], ok)
  {
    seq(|batch|, i requires 0 <= i < |batch| => Handed(batch[i], ok))
  }

  // ------------------------------------------------------------------
  // Views
  // ------------------------------------------------------------------

  function RecordsIn(msgs: seq<Msg>): (r: seq<Rec>)
    ensures |r| <= |msgs|
  {
    if msgs == [] then []
    else RecordsIn(msgs[..|msgs| - 1]) + (if msgs[|msgs| - 1].Record? then [msgs[|msgs| - 1].rec] else [])
  }

  lemma {:induction false} RecordsConcat(a: seq<Msg>, b: seq<Msg>)
    ensures RecordsIn(a + b) == RecordsIn(a) + RecordsIn(b)
  {
    if b == [] {
      assert a + b == a;
    } else {
      assert (a + b)[..|a + b| - 1] == a + b[..|b| - 1];
      RecordsConcat(a, b[..|b| - 1]);
    }
  }

  lemma RecordsOne(m: Msg)
    ensures RecordsIn([m]) == if m.Record? then [m.rec] else []
  {
    assert [m][..0] == [];
  }

  lemma RecordsFirst(msgs: seq<Msg>)
    requires msgs != []
    ensures RecordsIn(msgs) == (if msgs[0].Record? then [msgs[0].rec] else []) + RecordsIn(msgs[1..])
  {
    RecordsConcat([msgs[0]], msgs[1..]);
    RecordsOne(msgs[0]);
    assert msgs == [msgs[0]] + msgs[1..];
  }

  function Names(hs: seq<Handed>): (r: seq<Rec>)
    ensures |r| == |hs| && forall i :: 0 <= i < |r| ==> r[i] == hs[i].rec
  {
    seq(|hs|, i requires 0 <= i < |hs| => hs[i].rec)
  }

  /** The records the writer holds and has not handed over yet. */
  function InHand(w: Writer): seq<Rec> { if w.Collecting? || w.Writing? then w.batch else [] }

  /** The records `queue_len` still has to lose: in hand, or handed but not subtracted. */
  function Uncredited(w: Writer): nat { if w.Collecting? || w.Writing? || w.Counting? then |w.batch| else 0 }

  function Held(w: Writer): seq<nat> { if w.Idle? || w.Stopped? then [] else w.flushes }

  // ------------------------------------------------------------------
  // Conservation
  // ------------------------------------------------------------------

  /** Handed over, then in hand, then in the channel: exactly what was queued, in order. */
  ghost predicate Conserved(s: State) {
    Names(s.handed) + InHand(s.writer) + RecordsIn(s.channel) == s.queued
  }

  predicate BatchOk(w: Writer) {
    (w.Collecting? || w.Writing? || w.Counting? ==> 1 <= |w.batch| <= BATCH_MAX)
  }

  lemma Regroup3(a: seq<Rec>, b: seq<Rec>, c: seq<Rec>)
    ensures a + (b + c) == a + b + c
  {
  }

  lemma ConservedKept(s: State, s': State)
    requires Conserved(s) && s'.channel == s.channel && s'.queued == s.queued
    requires s'.handed == s.handed && InHand(s'.writer) == InHand(s.writer)
    ensures Conserved(s')
  {
    hide RecordsIn, InHand, Names;
  }

  lemma SendConserved(s: State, s': State, m: Msg)
    requires Conserved(s) && s'.channel == s.channel + [m] && s'.handed == s.handed && s'.writer == s.writer
    requires s'.queued == s.queued + (if m.Record? then [m.rec] else [])
    ensures Conserved(s')
  {
    hide RecordsIn, InHand, Names;
    RecordsConcat(s.channel, [m]);
    RecordsOne(m);
    Regroup3(Names(s.handed) + InHand(s.writer), RecordsIn(s.channel), if m.Record? then [m.rec] else []);
  }

  lemma HandConserved(s: State, s': State, ok: bool)
    requires Conserved(s) && s'.channel == s.channel && s'.queued == s.queued
    requires s'.handed == s.handed + Marked(InHand(s.writer), ok) && InHand(s'.writer) == []
    ensures Conserved(s')
  {
    hide RecordsIn, InHand;
    assert Names(s'.handed) == Names(s.handed) + InHand(s.writer);
    assert Names(s'.handed) + [] == Names(s'.handed);
  }

  lemma StepConservedProducer(s: State, step: Step)
    requires !IsWriterStep(step) && Conserved(s)
    ensures Conserved(Next(s, step))
  {
    hide Open, Conserved;
    var s' := Next(s, step);
    match step {
      case TrySend(r) => if s'.channel != s.channel { SendConserved(s, s', Record(r)); } else { ConservedKept(s, s'); }
      case SendFlush(id) =>
        if s'.channel != s.channel { SendConserved(s, s', Flush(id)); } else { ConservedKept(s, s'); }
      case _ => ConservedKept(s, s');
    }
  }

  lemma StepConservedWriter(s: State, step: Step)
    requires IsWriterStep(step) && Conserved(s)
    ensures Conserved(Next(s, step))
  {
    hide Open, Conserved;
    var s' := Next(s, step);
    match step {
      case Receive => if s.writer.Idle? && s.channel != [] { TakeConserved(s, s', []); } else { ConservedKept(s, s'); }
      case Collect => if s' != s { TakeConserved(s, s', s.writer.batch); }
      case Commit(ok) => if s' != s { HandConserved(s, s', ok); }
      case _ => ConservedKept(s, s');
    }
  }

  lemma StepConserved(s: State, step: Step)
    requires Conserved(s)
    ensures Conserved(Next(s, step))
  {
    hide *;
    if IsWriterStep(step) { StepConservedWriter(s, step); } else { StepConservedProducer(s, step); }
  }

  /** Taking the first message off the channel. */
  lemma TakeConserved(s: State, s': State, batch: seq<Rec>)
    requires Conserved(s) && s.channel != [] && InHand(s.writer) == batch
    requires s'.channel == s.channel[1..] && s'.handed == s.handed && s'.queued == s.queued
    requires InHand(s'.writer) == if s.channel[0].Record? then batch + [s.channel[0].rec] else batch
    ensures Conserved(s')
  {
    hide RecordsIn, InHand;
    RecordsFirst(s.channel);
    if s.channel[0].Record? {
      TakenFirst(Names(s.handed), batch, [s.channel[0].rec], RecordsIn(s.channel[1..]));
    } else {
      assert [] + RecordsIn(s.channel[1..]) == RecordsIn(s.channel[1..]);
    }
  }

  lemma TakenFirst(a: seq<Rec>, b: seq<Rec>, x: seq<Rec>, c: seq<Rec>)
    ensures a + b + (x + c) == a + (b + x) + c
  {
  }

  // ------------------------------------------------------------------
  // The counter
  // ------------------------------------------------------------------

  /** `queue_len`, a wrapping 64-bit counter, plus the inserts not counted yet, is what
      was queued and not yet credited. */
  ghost predicate Counted(s: State) {
    && s.queueLen < U64 && |s.channel| <= CAPACITY && BatchOk(s.writer)
    && Uncredited(s.writer) <= |s.handed| + |InHand(s.writer)|
    && (s.queueLen + s.uncounted) % U64 == (|s.queued| - (|s.handed| + |InHand(s.writer)| - Uncredited(s.writer))) % U64
  }

  lemma StepCountedProducer(s: State, step: Step)
    requires !IsWriterStep(step) && Counted(s)
    ensures Counted(Next(s, step))
  {
    hide Open, InHand, Uncredited, BatchOk;
    match step {
      case Count => if s.uncounted > 0 { AddWrap(s.queueLen, s.uncounted); }
      case TrySend(r) => if s.ready > 0 && |s.channel| < CAPACITY {
          SuccWrap(s.queueLen + s.uncounted, |s.queued| - (|s.handed| + |InHand(s.writer)| - Uncredited(s.writer)));
        }
      case _ =>
    }
  }

  lemma StepCountedWriter(s: State, step: Step)
    requires IsWriterStep(step) && Counted(s)
    ensures Counted(Next(s, step))
  {
    hide Open;
    if step.Subtract? && s.writer.Counting? {
      SubWrap(s.queueLen, s.uncounted, |s.queued| - (|s.handed| - |s.writer.batch|), |s.writer.batch|);
    }
  }

  lemma StepCounted(s: State, step: Step)
    requires Counted(s)
    ensures Counted(Next(s, step))
  {
    hide *;
    if IsWriterStep(step) { StepCountedWriter(s, step); } else { StepCountedProducer(s, step); }
  }

  lemma AddWrap(q: nat, u: nat)
    requires q < U64 && u > 0
    ensures ((q + 1) % U64 + (u - 1)) % U64 == (q + u) % U64
  {
  }

  lemma SuccWrap(a: int, b: int)
    requires a % U64 == b % U64
    ensures (a + 1) % U64 == (b + 1) % U64
  {
  }

  lemma SubWrap(q: nat, u: nat, b: int, n: nat)
    requires q < U64 && n < U64 && (q + u) % U64 == b % U64
    ensures ((q - n) % U64 + u) % U64 == (b - n) % U64
  {
  }

  // ------------------------------------------------------------------
  // Flush barriers, giving up, stopping
  // ------------------------------------------------------------------

  /** How many records are handed over or in hand. */
  function Reached(s: State): nat { |s.handed| + |InHand(s.writer)| }

  /** The barrier of a flush lies no further than this many records. */
  predicate Within(s: State, id: nat, n: nat) { id in s.barriers && s.barriers[id] <= n }

  /** A flush in the channel waits for the records in front of it. */
  ghost predicate PositionOk(s: State, p: int) {
    0 <= p < |s.channel| && s.channel[p].Flush? ==> Within(s, s.channel[p].id, Reached(s) + |RecordsIn(s.channel[..p])|)
  }

  ghost predicate ChannelOk(s: State) { forall p :: 0 <= p < |s.channel| ==> PositionOk(s, p) }

  ghost predicate HeldOk(s: State) {
    && (forall id :: id in s.acked ==> Within(s, id, |s.handed|))
    && (forall i :: 0 <= i < |Held(s.writer)| ==> Within(s, Held(s.writer)[i], Reached(s)))
  }

  ghost predicate FlushesOk(s: State) { ChannelOk(s) && HeldOk(s) }

  lemma LengthConserved(s: State)
    requires Conserved(s)
    ensures |s.queued| == Reached(s) + |RecordsIn(s.channel)|
  {
    hide RecordsIn;
  }

  lemma ChannelTaken(s: State, s': State)
    requires ChannelOk(s) && s.channel != [] && s'.channel == s.channel[1..] && s'.barriers == s.barriers
    requires Reached(s') == Reached(s) + (if s.channel[0].Record? then 1 else 0)
    ensures ChannelOk(s')
    ensures s.channel[0].Flush? ==> Within(s', s.channel[0].id, Reached(s))
  {
    hide RecordsIn, Reached;
    forall p | 0 <= p < |s'.channel| ensures PositionOk(s', p) {
      assert PositionOk(s, p + 1);
      assert s.channel[p + 1] == s'.channel[p];
      RecordsFirst(s.channel[..p + 1]);
      assert s.channel[..p + 1][1..] == s'.channel[..p];
    }
    assert PositionOk(s, 0);
    assert s.channel[..0] == [];
    NoRecords();
  }

  lemma NoRecords() ensures |RecordsIn([])| == 0 {}

  lemma ChannelAppended(s: State, s': State, m: Msg)
    requires Conserved(s) && ChannelOk(s) && s'.channel == s.channel + [m] && Reached(s') == Reached(s)
    requires forall id :: id in s.barriers ==> id in s'.barriers && s'.barriers[id] == s.barriers[id]
    requires m.Flush? ==> m.id in s'.barriers && s'.barriers[m.id] == |s.queued|
    ensures ChannelOk(s')
  {
    hide RecordsIn, Reached, Conserved;
    LengthConserved(s);
    forall p | 0 <= p < |s'.channel| ensures PositionOk(s', p) {
      if p < |s.channel| {
        assert PositionOk(s, p);
        assert s'.channel[..p] == s.channel[..p] && s'.channel[p] == s.channel[p];
      } else {
        assert s'.channel[..p] == s.channel;
      }
    }
  }

  lemma ChannelKept(s: State, s': State)
    requires ChannelOk(s) && s'.channel == s.channel && s'.barriers == s.barriers && Reached(s') == Reached(s)
    ensures ChannelOk(s')
  {
    hide RecordsIn, Reached;
    forall p | 0 <= p < |s'.channel| ensures PositionOk(s', p) { assert PositionOk(s, p); }
  }

  lemma StepChannel(s: State, step: Step)
    requires Conserved(s) && ChannelOk(s)
    ensures ChannelOk(Next(s, step))
  {
    hide RecordsIn, Open, Conserved, ChannelOk;
    var s' := Next(s, step);
    if s' == s {
    } else if s'.channel == s.channel {
      ChannelKept(s, s');
    } else {
      match step {
        case TrySend(r) => ChannelAppended(s, s', Record(r));
        case SendFlush(id) => ChannelAppended(s, s', Flush(id));
        case Receive => ChannelTaken(s, s');
        case Collect => ChannelTaken(s, s');
      }
    }
  }

  /** Nothing was taken back: barriers stand, and as much is handed over and in hand. */
  ghost predicate Further(s: State, s': State) {
    && (forall id :: id in s.barriers ==> id in s'.barriers && s'.barriers[id] == s.barriers[id])
    && |s.handed| <= |s'.handed| && Reached(s) <= Reached(s')
  }

  lemma HeldKept(s: State, s': State)
    requires HeldOk(s) && Further(s, s') && s'.acked == s.acked && Held(s'.writer) == Held(s.writer)
    ensures HeldOk(s')
  {
    hide Held, Reached;
  }

  lemma HeldMore(s: State, s': State, id: nat)
    requires HeldOk(s) && Further(s, s') && s'.acked == s.acked && Held(s'.writer) == Held(s.writer) + [id]
    requires Within(s, id, Reached(s))
    ensures HeldOk(s')
  {
    hide Held, Reached;
  }

  lemma HeldAcked(s: State, s': State, id: nat)
    requires HeldOk(s) && Further(s, s') && s'.acked == s.acked + {id}
    requires Held(s'.writer) == Held(s.writer) || (Held(s.writer) != [] && Held(s'.writer) == Held(s.writer)[1..])
    requires Within(s, id, |s.handed|)
    ensures HeldOk(s')
  {
    hide Held, Reached;
    var skip := |Held(s.writer)| - |Held(s'.writer)|;
    forall i | 0 <= i < |Held(s'.writer)| ensures Within(s', Held(s'.writer)[i], Reached(s')) {
      assert Within(s, Held(s.writer)[i + skip], Reached(s));
    }
  }

  lemma FirstFlush(s: State)
    requires ChannelOk(s) && s.channel != [] && s.channel[0].Flush?
    ensures Within(s, s.channel[0].id, Reached(s))
  {
    hide RecordsIn, Reached;
    assert PositionOk(s, 0);
    assert s.channel[..0] == [];
    NoRecords();
  }

  lemma FirstHeld(s: State)
    requires HeldOk(s) && Held(s.writer) != []
    ensures Within(s, Held(s.writer)[0], Reached(s))
  {
  }

  lemma StepHeldProducer(s: State, step: Step)
    requires !IsWriterStep(step) && ChannelOk(s) && HeldOk(s)
    ensures HeldOk(Next(s, step))
  {
    hide Open, HeldOk, ChannelOk, Within;
    var s' := Next(s, step);
    HeldKept(s, s');
  }

  lemma StepHeldWriter(s: State, step: Step)
    requires IsWriterStep(step) && ChannelOk(s) && HeldOk(s)
    ensures HeldOk(Next(s, step))
  {
    hide Open, HeldOk, ChannelOk, Within;
    var s' := Next(s, step);
    match step {
      case Receive =>
        if s.writer.Idle? && s.channel != [] && s.channel[0].Flush? {
          FirstFlush(s);
          HeldAcked(s, s', s.channel[0].id);
        } else {
          HeldKept(s, s');
        }
      case Collect =>
        if s' != s && s.channel[0].Flush? {
          FirstFlush(s);
          HeldMore(s, s', s.channel[0].id);
        } else {
          HeldKept(s, s');
        }
      case Ack =>
        if s' != s {
          FirstHeld(s);
          HeldAcked(s, s', s.writer.flushes[0]);
        }
      case _ => HeldKept(s, s');
    }
  }

  lemma StepHeld(s: State, step: Step)
    requires ChannelOk(s) && HeldOk(s)
    ensures HeldOk(Next(s, step))
  {
    hide *;
    if IsWriterStep(step) { StepHeldWriter(s, step); } else { StepHeldProducer(s, step); }
  }

  lemma StepFlushes(s: State, step: Step)
    requires Conserved(s) && FlushesOk(s)
    ensures FlushesOk(Next(s, step))
  {
    hide Next, Conserved, ChannelOk, HeldOk;
    StepChannel(s, step);
    StepHeld(s, step);
  }

  /** Records are given up only once stopping, and a stopped writer left nothing. */
  ghost predicate StopsOk(s: State) {
    && (forall i :: 0 <= i < |s.handed| && !s.handed[i].committed ==> s.stopping)
    && (s.writer.Stopped? ==> s.channel == [] && !s.slot && s.ready == 0)
  }

  lemma StepStops(s: State, step: Step)
    requires StopsOk(s)
    ensures StopsOk(Next(s, step))
  {
  }

  // ------------------------------------------------------------------
  // No flush is forgotten
  // ------------------------------------------------------------------

  /** Every flush sent is still in the channel, held by the writer, or answered. */
  ghost predicate Accounted(s: State) {
    forall id :: id in s.barriers ==> Flush(id) in s.channel || id in Held(s.writer) || id in s.acked
  }

  lemma AccountedKept(s: State, s': State)
    requires Accounted(s) && s'.barriers == s.barriers && s.acked <= s'.acked
    requires (forall m :: m in s.channel && m.Flush? ==> m in s'.channel) && Held(s'.writer) == Held(s.writer)
    ensures Accounted(s')
  {
    hide Held;
  }

  /** The first message leaves the channel: a flush is held or answered. */
  lemma AccountedTaken(s: State, s': State)
    requires Accounted(s) && s.channel != [] && s'.channel == s.channel[1..] && s'.barriers == s.barriers
             && s.acked <= s'.acked
    requires forall id :: id in Held(s.writer) ==> id in Held(s'.writer)
    requires s.channel[0].Flush? ==> s.channel[0].id in Held(s'.writer) || s.channel[0].id in s'.acked
    ensures Accounted(s')
  {
    hide Held;
    forall m | m in s.channel ensures m == s.channel[0] || m in s'.channel {
      var i :| 0 <= i < |s.channel| && s.channel[i] == m;
      if i > 0 { assert s'.channel[i - 1] == m; }
    }
  }

  lemma AccountedAck(s: State, s': State)
    requires Accounted(s) && s'.channel == s.channel && s'.barriers == s.barriers && Held(s.writer) != []
    requires s'.acked == s.acked + {Held(s.writer)[0]} && Held(s'.writer) == Held(s.writer)[1..]
    ensures Accounted(s')
  {
    hide Held;
    forall id | id in Held(s.writer) ensures id == Held(s.writer)[0] || id in Held(s'.writer) {
      var i :| 0 <= i < |Held(s.writer)| && Held(s.writer)[i] == id;
      if i > 0 { assert Held(s'.writer)[i - 1] == id; }
    }
  }

  lemma StepAccountedProducer(s: State, step: Step)
    requires !IsWriterStep(step) && Accounted(s)
    ensures Accounted(Next(s, step))
  {
    hide Open, Held;
    if step.SendFlush? { assert Flush(step.id) in s.channel + [Flush(step.id)]; }
  }

  lemma StepAccountedWriter(s: State, step: Step)
    requires IsWriterStep(step) && Accounted(s)
    ensures Accounted(Next(s, step))
  {
    hide Open, Accounted;
    var s' := Next(s, step);
    match step {
      case Receive => if s.writer.Idle? && s.channel != [] { AccountedTaken(s, s'); } else { AccountedKept(s, s'); }
      case Collect => if s' != s { AccountedTaken(s, s'); }
      case Ack => if s' != s { AccountedAck(s, s'); }
      case _ => AccountedKept(s, s');
    }
  }

  lemma {:induction false} RunAccounted(steps: seq<Step>)
    ensures Accounted(Run(Init, steps))
  {
    if steps != [] {
      hide Next, Accounted, IsWriterStep;
      var s, step := Run(Init, steps[..|steps| - 1]), steps[|steps| - 1];
      RunAccounted(steps[..|steps| - 1]);
      if IsWriterStep(step) { StepAccountedWriter(s, step); } else { StepAccountedProducer(s, step); }
    }
  }

  ghost predicate Inv(s: State) { Conserved(s) && Counted(s) && FlushesOk(s) && StopsOk(s) }

  lemma {:induction false} RunInv(steps: seq<Step>)
    ensures Inv(Run(Init, steps))
  {
    if steps != [] {
      hide Next, Conserved, Counted, FlushesOk, StopsOk;
      var s, step := Run(Init, steps[..|steps| - 1]), steps[|steps| - 1];
      RunInv(steps[..|steps| - 1]);
      StepConserved(s, step);
      StepCounted(s, step);
      StepFlushes(s, step);
      StepStops(s, step);
    } else {
      assert Names([]) == [] && RecordsIn([]) == [];
    }
  }

  /** Under every interleaving: what was handed over, then the current batch, then the
      channel, concatenate to exactly the records answered Queued, in order; batches
      never exceed 64; and a stopped writer has handed over everything. */
  lemma NothingLostOrReordered(steps: seq<Step>)
    ensures var s := Run(Init, steps);
            && Names(s.handed) + InHand(s.writer) + RecordsIn(s.channel) == s.queued
            && (s.writer.Collecting? || s.writer.Writing? || s.writer.Counting? ==> 1 <= |s.writer.batch| <= 64)
            && |s.channel| <= 8192
            && (s.writer.Stopped? ==> Names(s.handed) == s.queued)
            && forall i :: 0 <= i < |s.handed| && !s.handed[i].committed ==> s.stopping
  {
    hide FlushesOk, Run;
    RunInv(steps);
    var s := Run(Init, steps);
    if s.writer.Stopped? { assert Names(s.handed) + [] + [] == Names(s.handed); }
  }

  /** A flush is answered only after every record queued before it was handed over, and
      all of those were committed unless the pipeline is stopping. */
  lemma FlushMeansDone(steps: seq<Step>, id: nat)
    requires id in Run(Init, steps).acked
    ensures var s := Run(Init, steps);
            && id in s.barriers && s.barriers[id] <= |s.handed| <= |s.queued|
            && Names(s.handed)[..s.barriers[id]] == s.queued[..s.barriers[id]]
            && (!s.stopping ==> forall i :: 0 <= i < s.barriers[id] ==> s.handed[i].committed)
  {
    hide Run, RecordsIn, Counted;
    RunInv(steps);
    var s := Run(Init, steps);
    assert Within(s, id, |s.handed|);
    PrefixOf(Names(s.handed), InHand(s.writer), RecordsIn(s.channel), s.barriers[id]);
  }

  /** No flush is forgotten: in every run each one sent is in the channel, held with the
      current batch, or answered; so an idle writer with an empty channel, and a stopped
      one, have answered them all. */
  lemma NoFlushForgotten(steps: seq<Step>, id: nat)
    requires id in Run(Init, steps).barriers
    ensures var s := Run(Init, steps);
            && (Flush(id) in s.channel || id in Held(s.writer) || id in s.acked)
            && (s.writer.Stopped? || (s.writer.Idle? && s.channel == []) ==> id in s.acked)
  {
    hide Run, Conserved, Counted, FlushesOk;
    RunAccounted(steps);
    RunInv(steps);
  }

  lemma PrefixOf(a: seq<Rec>, b: seq<Rec>, c: seq<Rec>, n: nat)
    requires n <= |a|
    ensures (a + b + c)[..n] == a[..n]
  {
  }

  /** The barrier of a flush is the number of records queued when it was sent. */
  lemma BarrierIsWhatWasQueued(s: State, step: Step, id: nat)
    requires id in Next(s, step).barriers
    ensures if id in s.barriers then Next(s, step).barriers[id] == s.barriers[id]
            else step == SendFlush(id) && Next(s, step).barriers[id] == |s.queued| == |Next(s, step).queued|
  {
    hide Open;
  }

  /** Whenever no insert is between its send and its count, `queue_len` is exactly the
      number of records not yet written: in the channel, in the batch, or just handed
      over and not subtracted. */
  lemma QueueLenIsExact(steps: seq<Step>)
    requires Run(Init, steps).uncounted == 0
    ensures var s := Run(Init, steps); s.queueLen == |RecordsIn(s.channel)| + Uncredited(s.writer)
  {
    hide Run, FlushesOk;
    RunInv(steps);
    var s := Run(Init, steps);
    LengthConserved(s);
    assert |s.queued| - (|s.handed| + |InHand(s.writer)| - Uncredited(s.writer))
        == |RecordsIn(s.channel)| + Uncredited(s.writer);
  }
}
