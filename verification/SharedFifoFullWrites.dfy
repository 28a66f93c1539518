/**
 Full writes. A write waits until `avail` covers its whole buffer and then reports what it copied. With one writer the
 wait is enough for the whole buffer to fit; the early release of the writer lock makes it useless with two.
 */
module SharedFifoFullWrites {
  import opened Words
  import opened Kfifo
  import opened SharedFifo
  import opened SharedFifoQueue
  import opened SharedFifoCache
  import opened SharedFifoSolo
  import SharedFifoWakeups

  predicate Writing(k: Task) { k.call.Write? }

  predicate OwesStore(cfg: Config, k: Task) { Writing(k) && Unstored(cfg, k) }

  predicate OwesRead(cfg: Config, k: Task) { Writing(k) && Unread(cfg, k) }

  /** Among all tasks only w writes. While it has no store outstanding, `avail` is a lower bound on the free space;
      once it is past its wait, its whole buffer fits. */
  ghost predicate FullInv(cfg: Config, s: State, w: Tid) {
    && w in s.tasks
    && (forall u :: u in s.tasks && u != w ==> !Writing(s.tasks[u]))
    && var k := s.tasks[w];
    && (OwesStore(cfg, k) || s.avail <= s.ring.Free())
    && (OwesRead(cfg, k) || Settled(s) <= s.ring.Free())
    && (Writing(k) && k.pc.Measure? ==> k.call.Need() <= s.ring.Free())
    && (Writing(k) && (k.pc.Copy? || AfterCopy(k)) ==> k.limit == k.call.Need())
  }

  predicate WritesOnlyBy(run: seq<Event>, ws: set<Tid>) {
    forall i :: 0 <= i < |run| && run[i].action.Begin? && run[i].action.call.Write? ==> run[i].task in ws
  }

  lemma CallStep(cfg: Config, s: State, e: Event)
    requires Enabled(s, e)
    ensures var k, k' := s.tasks[e.task], Apply(cfg, s, e).tasks[e.task];
      Writing(k') ==> Writing(k) || (e.action.Begin? && e.action.call.Write?)
  {
    hide Ring.Used, Ring.Free, NextByte, NextPc;
  }

  /** The obligation to store the count is taken on at the publication and kept until the store. */
  lemma OwesStep(cfg: Config, s: State, e: Event)
    requires Inv(cfg, s) && Enabled(s, e)
    ensures var k, k' := s.tasks[e.task], Apply(cfg, s, e).tasks[e.task];
      && (Unstored(cfg, k) && !StoresCount(k, e.action) ==> Unstored(cfg, k') && k'.call == k.call)
      && (Unread(cfg, k') ==> Commits(k, e.action) || Unread(cfg, k))
      && (Unread(cfg, k) ==> Unread(cfg, k') || PublishesRead(k, e.action))
  {
    hide Ring.Used, Ring.Free, Ring.Valid, Ring.At, Ring.AdvanceIn, Ring.AdvanceOut, Ring.StoreAt, NextByte, Knows;
    hide FreeBetween, Effect;
    assert ControlOk(cfg, s, e.task);
  }

  /** Two tasks are never between the reading and the store of the count together. */
  lemma LockOwner(cfg: Config, s: State, e: Event, w: Tid)
    requires Inv(cfg, s) && Enabled(s, e) && w in s.tasks && w != e.task
    requires StoresCount(s.tasks[e.task], e.action) || PublishesRead(s.tasks[e.task], e.action)
    ensures !ReadsCount(s.tasks[w].pc)
  {
    assert ControlOk(cfg, s, w) && ControlOk(cfg, s, e.task);
  }

  /** The lower bounds survive a step of a reader. */
  lemma ReaderBounds(cfg: Config, s: State, e: Event, w: Tid)
    requires Inv(cfg, s) && Enabled(s, e) && FullInv(cfg, s, w) && e.task != w
    ensures var s' := Apply(cfg, s, e);
      && s'.tasks.Keys == s.tasks.Keys && s'.tasks[w] == s.tasks[w] && s'.ring.Free() >= s.ring.Free()
      && (OwesStore(cfg, s.tasks[w]) || s'.avail <= s'.ring.Free())
      && (OwesRead(cfg, s.tasks[w]) || Settled(s') <= s'.ring.Free())
  {
    hide Apply, Ring.Used, Ring.Free, Knows, ControlOk, Settled, Unread;
    StepEffect(cfg, s, e);
    SettledStep(cfg, s, e);
    FreeStep(cfg, s, e);
    AvailStep(cfg, s, e);
    if StoresCount(s.tasks[e.task], e.action) {
      LockOwner(cfg, s, e, w);
    }
  }

  /** And a step of the writer. */
  lemma WriterBounds(cfg: Config, s: State, e: Event)
    requires Inv(cfg, s) && Enabled(s, e) && FullInv(cfg, s, e.task)
    ensures var s', k' := Apply(cfg, s, e), Apply(cfg, s, e).tasks[e.task];
      && (OwesStore(cfg, k') || s'.avail <= s'.ring.Free())
      && (OwesRead(cfg, k') || Settled(s') <= s'.ring.Free())
  {
    hide Apply, Ring.Used, Ring.Free, Knows, ControlOk, Settled;
    StepEffect(cfg, s, e);
    SettledStep(cfg, s, e);
    FreeStep(cfg, s, e);
    UnreadStep(cfg, s, e);
    AvailStep(cfg, s, e);
    OwesStep(cfg, s, e);
  }

  /** What passed the test fits. */
  lemma WriterMeasures(cfg: Config, s: State, e: Event)
    requires Inv(cfg, s) && Enabled(s, e) && FullInv(cfg, s, e.task)
    ensures var s', k' := Apply(cfg, s, e), Apply(cfg, s, e).tasks[e.task];
      Writing(k') && k'.pc.Measure? ==> k'.call.Need() <= s'.ring.Free()
  {
    hide Ring.Used, Ring.Free, Ring.Valid, Ring.At, NextByte, Knows, Effect, Seen, Settled;
    assert ControlOk(cfg, s, e.task);
    StepEffect(cfg, s, e);
  }

  /** What fits is measured in full. */
  lemma WriterLimit(cfg: Config, s: State, e: Event)
    requires Inv(cfg, s) && Enabled(s, e) && FullInv(cfg, s, e.task)
    ensures var k' := Apply(cfg, s, e).tasks[e.task];
      Writing(k') && (k'.pc.Copy? || AfterCopy(k')) ==> k'.limit == k'.call.Need()
  {
    hide Ring.Used, Ring.Free, Ring.Valid, Ring.At, NextByte, Knows, Effect, Seen, Settled;
    assert ControlOk(cfg, s, e.task);
  }

  lemma FullStep(cfg: Config, s: State, e: Event, w: Tid)
    requires Inv(cfg, s) && Enabled(s, e) && FullInv(cfg, s, w)
    requires e.action.Begin? && e.action.call.Write? ==> e.task == w
    ensures FullInv(cfg, Apply(cfg, s, e), w)
  {
    hide Apply, Enabled, Ring.Used, Ring.Free, Knows, ControlOk, Settled, OwesStore, OwesRead, Writing;
    StepEffect(cfg, s, e);
    CallStep(cfg, s, e);
    if e.task == w {
      WriterBounds(cfg, s, e);
      WriterMeasures(cfg, s, e);
      WriterLimit(cfg, s, e);
    } else {
      ReaderBounds(cfg, s, e, w);
    }
  }

  lemma {:induction false} FullRun(cfg: Config, s: State, w: Tid, run: seq<Event>)
    requires Inv(cfg, s) && FullInv(cfg, s, w) && Enables(cfg, s, run) && WritesOnlyBy(run, {w})
    ensures Inv(cfg, After(cfg, s, run)) && FullInv(cfg, After(cfg, s, run), w)
    decreases |run|
  {
    hide Inv, FullInv, Enabled, Apply;
    if run != [] {
      StepInv(cfg, s, run[0]);
      FullStep(cfg, s, run[0], w);
      FullRun(cfg, Apply(cfg, s, run[0]), w, run[1..]);
    }
  }

  /** A write that returns without a fault has copied its whole buffer. */
  predicate ReturnsInFull(k: Task) {
    k.pc.Return? && k.call.Write? && !k.fault ==> k.done == k.call.buf && k.Result() == |k.call.buf|
  }

  ghost predicate WritesAlwaysFull(cfg: Config, ws: set<Tid>) {
    forall run, t :: Enables(cfg, Init(cfg), run) && WritesOnlyBy(run, ws) && t in After(cfg, Init(cfg), run).tasks
                     ==> ReturnsInFull(After(cfg, Init(cfg), run).tasks[t])
  }

  /** With one writer `avail` is a lower bound on the free space whenever the writer tests it, a write past its wait
      fits, and so the write is full. */
  lemma OneWriterIsFull(cfg: Config, run: seq<Event>, w: Tid, t: Tid)
    requires cfg.Valid() && w in cfg.tasks && Enables(cfg, Init(cfg), run) && WritesOnlyBy(run, {w})
    requires t in After(cfg, Init(cfg), run).tasks
    ensures var s := After(cfg, Init(cfg), run); var k := s.tasks[t];
      && (k.call.Write? && (k.pc.Try? || k.pc.Test?) ==> s.avail <= s.ring.Free())
      && (k.call.Write? && k.pc.Measure? ==> k.call.Need() <= s.ring.Free())
      && ReturnsInFull(k)
  {
    hide Inv, FullInv, Apply, Enabled;
    InitInv(cfg);
    InitFull(cfg, w);
    FullRun(cfg, Init(cfg), w, run);
    FullTells(cfg, After(cfg, Init(cfg), run), w, t);
  }

  lemma InitFull(cfg: Config, w: Tid)
    requires cfg.Valid() && w in cfg.tasks
    ensures FullInv(cfg, Init(cfg), w)
  {
    hide Ring.Used;
    RoundUpIsLeast(cfg.fsize);
    RoundUpInRange(cfg.fsize);
    EmptyIsValid(cfg.Capacity());
  }

  lemma FullTells(cfg: Config, s: State, w: Tid, t: Tid)
    requires Inv(cfg, s) && FullInv(cfg, s, w) && t in s.tasks
    ensures var k := s.tasks[t];
      && (k.call.Write? && (k.pc.Try? || k.pc.Test?) ==> s.avail <= s.ring.Free())
      && (k.call.Write? && k.pc.Measure? ==> k.call.Need() <= s.ring.Free())
      && ReturnsInFull(k)
  {
    hide Ring.Used, Ring.Free, Ring.Valid, KnowsRing, ControlOk, Settled;
    assert Knows(s.ring, s.tasks[t]);
  }

  /** The first writer publishes fsize bytes and drops the writer lock; before it stores the count the second one
      passes the test for another fsize bytes. */
  lemma ShortWriteRun(cfg: Config, a: Tid, b: Tid) returns (run: seq<Event>)
    requires cfg.Valid() && a in cfg.tasks && b in cfg.tasks && a != b
    ensures Enables(cfg, Init(cfg), run) && WritesOnlyBy(run, {a, b})
    ensures a in After(cfg, Init(cfg), run).tasks && !ReturnsInFull(After(cfg, Init(cfg), run).tasks[a])
  {
    hide Ring.Used, Ring.At, Ring.StoreAt, Ring.AdvanceIn, Ring.AdvanceOut, Ring.Pushed;
    var s, n, buf := Init(cfg), cfg.Capacity(), seq(cfg.fsize, _ => 0 as Byte);
    InitInv(cfg);
    RoundUpIsLeast(cfg.fsize);
    RoundUpBelowTwice(cfg.fsize);
    EmptyIsValid(n);
    var m, more, s';
    run, m := TransferInAlone(cfg, s, b, buf, cfg.fsize);
    PushAppends(s.ring, buf);
    assert buf[..cfg.fsize] == buf;
    assert m.ring.Free() == n - cfg.fsize < cfg.fsize;
    run, m := On(cfg, s, run, m, b);
    more, s' := WriteAlone(cfg, m, a, buf, n - cfg.fsize);
    Join(cfg, s, run, m, more, s');
    run := run + more;
  }

  lemma RoundUpBelowTwice(n: nat)
    requires n >= 1
    ensures RoundUpPow2(n) < 2 * n
  {
    RoundUpIsLeast(n);
    var k: nat :| RoundUpPow2(n) == Pow2(k);
    if k > 0 {
      assert Pow2(k) == 2 * Pow2(k - 1);
    }
  }

  /** Writes are full in every run exactly if at most one task writes. */
  lemma WritesAlwaysFullExactly(cfg: Config, ws: set<Tid>)
    requires cfg.Valid() && ws <= cfg.tasks
    ensures WritesAlwaysFull(cfg, ws) <==> |ws| <= 1
  {
    hide Ring.Used, ReturnsInFull;
    if |ws| <= 1 {
      forall run, t | Enables(cfg, Init(cfg), run) && WritesOnlyBy(run, ws) && t in After(cfg, Init(cfg), run).tasks
        ensures ReturnsInFull(After(cfg, Init(cfg), run).tasks[t])
      {
        InitInv(cfg);
        RunInv(cfg, Init(cfg), run);
        var w := if ws == {} then t else Only(ws);
        OneWriterIsFull(cfg, run, w, t);
      }
    } else {
      var a, b := SharedFifoWakeups.TwoOf(ws);
      var run := ShortWriteRun(cfg, a, b);
      assert WritesOnlyBy(run, ws);
    }
  }

  ghost function Only(ws: set<Tid>): (w: Tid)
    requires |ws| == 1
    ensures ws == {w}
  {
    var w :| w in ws;
    assert |ws - {w}| == 0;
    assert ws == {w} + (ws - {w});
    w
  }
}
