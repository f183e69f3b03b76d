/** The producer methods of `CdrManager` and the writer's loop, in the program's own
    imperative form. Every method extends a trace of atomic steps of module CdrQueue,
    so all theorems about runs hold of the objects that come out of it. */
module CdrPipeline {
  import opened Prelude
  import opened CdrQueue

  datatype InsertResult = Queued | CacheOnly | Stored

  const RETRY_MIN_SECS := 1
  const RETRY_MAX_SECS := 30

  /** The wait before retry `k`: 1, 2, 4, ... seconds, at most 30. */
  function RetryWait(k: nat): nat { Min(RETRY_MIN_SECS * Pow2(k), RETRY_MAX_SECS) }

  lemma NextWait(k: nat)
    ensures RetryWait(k + 1) == Min(2 * RetryWait(k), RETRY_MAX_SECS)
  {
  }

  lemma {:induction false} RunConcat(s: State, a: seq<Step>, b: seq<Step>)
    ensures Run(s, a + b) == Run(Run(s, a), b)
  {
    if b == [] {
      assert a + b == a;
    } else {
      assert (a + b)[..|a + b| - 1] == a + b[..|b| - 1];
      RunConcat(s, a, b[..|b| - 1]);
    }
  }

  lemma RunOne(s: State, a: seq<Step>, x: Step)
    ensures Run(s, a + [x]) == Next(Run(s, a), x)
  {
    assert (a + [x])[..|a|] == a;
  }

  // Single steps, spelled out.

  lemma CommitStep(s: State, ok: bool)
    requires s.writer.Writing?
    ensures Next(s, Commit(ok)) == if !ok && !s.stopping then s
                                   else s.(handed := s.handed + Marked(s.writer.batch, ok),
                                           writer := Counting(s.writer.batch, s.writer.flushes))
  {
  }

  lemma SubtractStep(s: State)
    requires s.writer.Counting?
    ensures Next(s, Subtract) == s.(queueLen := (s.queueLen - |s.writer.batch|) % U64,
                                    writer := Acking(s.writer.flushes))
  {
  }

  lemma AckStep(s: State)
    requires s.writer.Acking?
    ensures s.writer.flushes != [] ==>
              Next(s, Ack) == s.(acked := s.acked + {s.writer.flushes[0]}, writer := Acking(s.writer.flushes[1..]))
    ensures s.writer.flushes == [] ==> Next(s, Finish) == s.(writer := Idle)
  {
  }

  /** A turn took `n` messages off the channel, 1 to 64 of them records, and if it is done
      handed exactly those records over, all with the same fate. */
  ghost predicate Turned(channel: seq<Msg>, rest: seq<Msg>, store: seq<Handed>, after: seq<Handed>, n: nat, done: bool,
                         ok: bool)
  {
    && 1 <= n <= |channel| && rest == channel[n..]
    && 1 <= |RecordsIn(channel[..n])| <= 64
    && after == store + (if done then Marked(RecordsIn(channel[..n]), ok) else [])
  }

  class Pipeline {
    var channel: seq<Msg>
    var slot: bool
    var queueLen: nat
    var stopping: bool
    var store: seq<Handed>
    var acked: set<nat>
    ghost var trace: seq<Step>

    /** The abstract state this object has reached. */
    ghost function Abs(): State
      reads this
    {
      Run(Init, trace)
    }

    ghost predicate Linked(w: Writer)
      reads this
    {
      var s := Abs();
      && s.channel == channel && s.slot == slot && s.queueLen == queueLen && s.stopping == stopping
      && s.handed == store && s.acked == acked && s.writer == w
    }

    /** Between calls: the writer is idle and no insert is half done. */
    ghost predicate Valid()
      reads this
    {
      Linked(Idle) && Abs().uncounted == 0 && Abs().ready == 0
    }

    constructor ()
      ensures Valid() && channel == [] && store == [] && slot && !stopping
    {
      channel, slot, queueLen, stopping, store, acked := [], true, 0, false, [], {};
      trace := [];
    }

    ghost method Did(x: Step)
      modifies this`trace
      ensures trace == old(trace) + [x] && Abs() == Next(old(Abs()), x)
    {
      RunOne(Init, trace, x);
      trace := trace + [x];
    }

    /** `CdrManager::insert`: the record is queued exactly when there is a sender and room. */
    method Insert(r: Rec) returns (res: InsertResult)
      requires Valid()
      modifies this
      ensures Valid() && old(trace) <= trace
      ensures res.Stored? <==> !old(slot)
      ensures res.Queued? <==> old(slot) && |old(channel)| < 8192
      ensures Abs().queued == if res.Queued? then old(Abs()).queued + [r] else old(Abs()).queued
      ensures channel == if res.Queued? then old(channel) + [Record(r)] else old(channel)
      ensures store == old(store)
    {
      hide Run;
      if !slot { return Stored; }
      Did(Acquire);
      Did(TrySend(r));
      if |channel| < CAPACITY {
        channel := channel + [Record(r)];
        Did(Count);
        queueLen := (queueLen + 1) % U64;
        res := Queued;
      } else {
        res := CacheOnly;
      }
    }

    /** The send half of `CdrManager::flush`: nothing to do without a sender; it waits, with
        nothing changed, while the channel is full. `id` names this flush. */
    method SendFlushRequest(id: nat) returns (sent: bool)
      requires Valid() && id !in Abs().barriers
      modifies this
      ensures Valid() && old(trace) <= trace && store == old(store) && stopping == old(stopping) && slot == old(slot)
      ensures sent <==> old(slot) && |old(channel)| < 8192
      ensures sent ==> id in Abs().barriers && Abs().barriers[id] == |old(Abs()).queued|
      ensures channel == if sent then old(channel) + [Flush(id)] else old(channel)
      ensures Abs().queued == old(Abs()).queued
    {
      hide Run;
      if !slot || |channel| >= CAPACITY { return false; }
      Did(Acquire);
      Did(SendFlush(id));
      channel := channel + [Flush(id)];
      return true;
    }

    /** The first half of `CdrManager::close`: no more retries, one last flush if there is
        room for it, no more sender. Nothing queued is touched. */
    method Close(id: nat) returns (sent: bool)
      requires Valid() && id !in Abs().barriers
      modifies this
      ensures Valid() && old(trace) <= trace && stopping && !slot && store == old(store)
      ensures sent <==> old(slot) && |old(channel)| < 8192
      ensures sent ==> id in Abs().barriers && Abs().barriers[id] == |old(Abs()).queued|
      ensures channel == if sent then old(channel) + [Flush(id)] else old(channel)
      ensures Abs().queued == old(Abs()).queued
    {
      hide Run;
      Did(Stopping);
      stopping := true;
      sent := SendFlushRequest(id);
      Did(TakeSlot);
      slot := false;
    }

    /** The second half: the writer empties the channel; `results` says how each commit
        went. Everything ever queued has then been handed over, in order, and every flush
        was answered. */
    method Drain(results: seq<bool>)
      requires Valid() && stopping && |results| >= |channel|
      modifies this
      ensures Valid() && old(trace) <= trace && channel == []
      ensures Names(store) == Abs().queued
      ensures forall id :: id in Abs().barriers ==> id in acked
    {
      hide Run, RecordsIn, Marked, Names;
      var i := 0;
      while channel != []
        invariant Valid() && stopping && old(trace) <= trace && i + |channel| <= |results|
        decreases |channel|
      {
        var done := RunTurn([results[i]]);
        i := i + 1;
      }
      Drained(trace);
    }

    /** The batch loop: up to 64 records, every flush met on the way. */
    method CollectBatch(first: Rec) returns (batch: seq<Rec>, flushes: seq<nat>)
      requires Linked(Collecting([first], [])) && Abs().uncounted == 0 && Abs().ready == 0
      modifies this
      ensures Linked(Collecting(batch, flushes)) && Abs().uncounted == 0 && Abs().ready == 0
      ensures 1 <= |batch| <= 64 && (|batch| == 64 || channel == [])
      ensures old(trace) <= trace && store == old(store) && stopping == old(stopping) && acked == old(acked)
      ensures exists n :: 0 <= n <= |old(channel)| && channel == old(channel)[n..]
                          && batch == [first] + RecordsIn(old(channel)[..n])
    {
      hide Run, RecordsIn;
      batch, flushes := [first], [];
      ghost var taken := 0;
      NoRecordsYet(old(channel), first);
      while |batch| < BATCH_MAX && channel != []
        invariant Linked(Collecting(batch, flushes)) && Abs().uncounted == 0 && Abs().ready == 0
        invariant 1 <= |batch| <= BATCH_MAX && old(trace) <= trace
        invariant store == old(store) && stopping == old(stopping) && acked == old(acked)
        invariant 0 <= taken <= |old(channel)| && channel == old(channel)[taken..]
        invariant batch == [first] + RecordsIn(old(channel)[..taken])
        decreases |channel|
      {
        var m := channel[0];
        TakeOne(old(channel), taken);
        Did(Collect);
        match m {
          case Record(r) => batch := batch + [r];
          case Flush(id) => flushes := flushes + [id];
        }
        channel := channel[1..];
        taken := taken + 1;
      }
    }

    /** `write_batch`: retry until the store accepts, or give up once stopping. `attempts`
        holds the results of the attempts so far; while they are all refusals and nothing
        is stopping, the writer is still at it (`done` is false) and the batch in hand. */
    method WriteBatch(batch: seq<Rec>, flushes: seq<nat>, attempts: seq<bool>)
        returns (done: bool, committed: bool, waits: seq<nat>)
      requires Linked(Writing(batch, flushes)) && Abs().uncounted == 0 && Abs().ready == 0
      modifies this
      ensures Abs().uncounted == 0 && Abs().ready == 0
      ensures old(trace) <= trace && stopping == old(stopping) && channel == old(channel) && acked == old(acked)
      ensures done <==> (stopping && attempts != []) || exists i :: 0 <= i < |attempts| && attempts[i]
      ensures done ==> Linked(Acking(flushes)) && store == old(store) + Marked(batch, committed)
      ensures !done ==> Linked(Writing(batch, flushes)) && store == old(store)
      ensures done ==> (committed <==> !stopping || attempts[0])
      ensures forall k :: 0 <= k < |waits| ==> waits[k] == Min(Pow2(k), 30)
      ensures done && committed ==>
                |waits| < |attempts| && attempts[|waits|] && forall k :: 0 <= k < |waits| ==> !attempts[k]
    {
      hide Run, Next;
      waits, committed := [], false;
      var wait := RETRY_MIN_SECS;
      while |waits| < |attempts| && !attempts[|waits|] && !stopping
        invariant Linked(Writing(batch, flushes)) && Abs().uncounted == 0 && Abs().ready == 0
        invariant |waits| <= |attempts| && forall k :: 0 <= k < |waits| ==> !attempts[k]
        invariant old(trace) <= trace && stopping == old(stopping) && channel == old(channel) && acked == old(acked)
        invariant store == old(store) && (stopping ==> waits == [])
        invariant wait == RetryWait(|waits|) && forall k :: 0 <= k < |waits| ==> waits[k] == RetryWait(k)
        decreases |attempts| - |waits|
      {
        CommitStep(Abs(), false);
        Did(Commit(false));
        NextWait(|waits|);
        waits := waits + [wait];
        wait := Min(wait * 2, RETRY_MAX_SECS);
      }
      done := |waits| < |attempts|;
      if done {
        committed := attempts[|waits|];
        CommitStep(Abs(), committed);
        Did(Commit(committed));
        store := store + Marked(batch, committed);
        SubtractStep(Abs());
        Did(Subtract);
        queueLen := (queueLen - |batch|) % U64;
      }
    }

    /** One turn of the writer's loop, given how the commits of its batch go. */
    method RunTurn(attempts: seq<bool>) returns (done: bool)
      requires Valid() && channel != []
      modifies this
      ensures old(trace) <= trace && old(acked) <= acked && stopping == old(stopping)
      ensures done <==> old(channel)[0].Flush? || (stopping && attempts != [])
                        || exists i :: 0 <= i < |attempts| && attempts[i]
      ensures done ==> Valid() && |channel| < |old(channel)|
      ensures old(channel)[0].Flush? ==>
                old(channel)[0].id in acked && store == old(store) && channel == old(channel)[1..]
      ensures old(channel)[0].Record? ==>
                exists n, ok :: Turned(old(channel), channel, old(store), store, n, done, ok) && (!stopping ==> ok)
    {
      hide Run, RecordsIn, Open, Marked, Turned;
      var first := channel[0];
      Did(Receive);
      channel := channel[1..];
      match first {
        case Flush(id) =>
          acked := acked + {id};
          done := true;
        case Record(r) =>
          ghost var n, ok;
          done, n, ok := RecordTurn(r, attempts);
          assert [Record(r)] + old(channel)[1..] == old(channel);
          assert Turned(old(channel), channel, old(store), store, n, done, ok);
          TurnedShorter(old(channel), channel, old(store), store, n, done, ok);
      }
    }

    /** The rest of the turn once its first record was received. */
    method RecordTurn(r: Rec, attempts: seq<bool>) returns (done: bool, ghost n: nat, ghost ok: bool)
      requires Linked(Collecting([r], [])) && Abs().uncounted == 0 && Abs().ready == 0
      modifies this
      ensures old(trace) <= trace && old(acked) <= acked && stopping == old(stopping)
      ensures done <==> (stopping && attempts != []) || exists i :: 0 <= i < |attempts| && attempts[i]
      ensures done ==> Valid()
      ensures Turned([Record(r)] + old(channel), channel, old(store), store, n, done, ok) && (!stopping ==> ok)
    {
      hide Run, RecordsIn, Marked, Turned;
      var batch, flushes := CollectBatch(r);
      n :| 0 <= n <= |old(channel)| && channel == old(channel)[n..] && batch == [r] + RecordsIn(old(channel)[..n]);
      Did(BeginWrite);
      var committed, waits;
      done, committed, waits := WriteBatch(batch, flushes, attempts);
      ok := if done then committed else true;
      if done { AckAll(flushes); }
      TurnedFirst(r, old(channel), channel, old(store), store, n, done, ok);
      n := n + 1;
    }

    method AckAll(flushes: seq<nat>)
      requires Linked(Acking(flushes)) && Abs().uncounted == 0 && Abs().ready == 0
      modifies this
      ensures Valid() && old(trace) <= trace && store == old(store) && channel == old(channel)
              && stopping == old(stopping)
      ensures acked == old(acked) + set i | 0 <= i < |flushes| :: flushes[i]
    {
      hide Run, Next;
      var i := 0;
      while i < |flushes|
        invariant 0 <= i <= |flushes| && Linked(Acking(flushes[i..])) && Abs().uncounted == 0 && Abs().ready == 0
        invariant old(trace) <= trace && store == old(store) && channel == old(channel) && stopping == old(stopping)
        invariant acked == old(acked) + set j | 0 <= j < i :: flushes[j]
      {
        AckStep(Abs());
        Did(Ack);
        acked := acked + {flushes[i]};
        assert flushes[i..][1..] == flushes[i + 1..];
        i := i + 1;
      }
      AckStep(Abs());
      Did(Finish);
    }
  }

  /** An idle writer with an empty channel has handed over everything and answered all. */
  lemma Drained(trace: seq<Step>)
    requires Run(Init, trace).channel == [] && Run(Init, trace).writer.Idle?
    ensures Names(Run(Init, trace).handed) == Run(Init, trace).queued
    ensures forall id :: id in Run(Init, trace).barriers ==> id in Run(Init, trace).acked
  {
    hide Run, Names;
    NothingLostOrReordered(trace);
    var s := Run(Init, trace);
    assert Names(s.handed) + [] + [] == Names(s.handed);
    forall id | id in s.barriers ensures id in s.acked { NoFlushForgotten(trace, id); }
  }

  lemma NoRecordsYet(ch: seq<Msg>, first: Rec)
    ensures [first] == [first] + RecordsIn(ch[..0]) && ch == ch[0..]
  {
  }

  lemma TakeOne(ch: seq<Msg>, n: nat)
    requires n < |ch|
    ensures ch[n..][0] == ch[n] && ch[n..][1..] == ch[n + 1..]
    ensures RecordsIn(ch[..n + 1]) == RecordsIn(ch[..n]) + if ch[n].Record? then [ch[n].rec] else []
  {
    assert ch[..n + 1][..n] == ch[..n];
  }

  lemma TurnedFirst(r: Rec, ch: seq<Msg>, rest: seq<Msg>, store: seq<Handed>, after: seq<Handed>, n: nat, done: bool,
                    ok: bool)
    requires n <= |ch| && rest == ch[n..] && 1 <= |[r] + RecordsIn(ch[..n])| <= BATCH_MAX
    requires after == store + (if done then Marked([r] + RecordsIn(ch[..n]), ok) else [])
    ensures Turned([Record(r)] + ch, rest, store, after, n + 1, done, ok)
  {
    hide RecordsIn, Marked;
    var all := [Record(r)] + ch;
    assert all[1..] == ch;
    FirstThen(all, n);
  }

  lemma TurnedShorter(ch: seq<Msg>, rest: seq<Msg>, store: seq<Handed>, after: seq<Handed>, n: nat, done: bool,
                      ok: bool)
    requires Turned(ch, rest, store, after, n, done, ok)
    ensures |rest| < |ch|
  {
    hide RecordsIn, Marked;
  }

  lemma FirstThen(ch: seq<Msg>, n: nat)
    requires ch != [] && ch[0].Record? && n <= |ch[1..]|
    ensures RecordsIn(ch[..n + 1]) == [ch[0].rec] + RecordsIn(ch[1..][..n])
    ensures ch[1..][n..] == ch[n + 1..]
  {
    RecordsFirst(ch[..n + 1]);
    assert ch[..n + 1][1..] == ch[1..][..n];
  }
}
