/**
 When the device can stop. With the store before the wake-up, and as long as no wait is interrupted, the tasks come to
 a halt only when all are at rest or the writer in front needs more room than there is. The driver's own order, a
 rounded-up capacity and an interrupted wait each lose this.
 */
module SharedFifoProgress {
  import opened Words
  import opened Kfifo
  import opened SharedFifo
  import opened SharedFifoQueue
  import opened SharedFifoCache
  import opened SharedFifoSolo
  import opened SharedFifoWakeups

  /** The transfer lock of the one kind of call is held by a task inside a call of that kind. */
  predicate TransferHeld(cfg: Config, s: State, c: Call) {
    var o := s.TransferLock(c);
    o.Some? ==> o.value in s.tasks
                && s.tasks[o.value].call.Write? == c.Write? && HoldsTransfer(cfg, s.tasks[o.value])
  }

  predicate PublishHeld(s: State) {
    s.lock.Some? ==> s.lock.value in s.tasks && InPublish(s.tasks[s.lock.value])
  }

  /** A lock that is taken is held by a task that will release it. */
  predicate Held(cfg: Config, s: State) {
    TransferHeld(cfg, s, Write([])) && TransferHeld(cfg, s, Read(0)) && PublishHeld(s)
  }

  predicate InterruptsWait(s: State, e: Event) { e.task in s.tasks && Interrupts(s.tasks[e.task], e.action) }

  lemma TransferHeldStep(cfg: Config, s: State, e: Event, c: Call)
    requires Inv(cfg, s) && TransferHeld(cfg, s, c) && Enabled(s, e) && !InterruptsWait(s, e)
    ensures TransferHeld(cfg, Apply(cfg, s, e), c)
  {
    hide Apply, HoldsTransfer, State.TransferLock, Knows, RingAfter, Ring.Used;
    StepEffect(cfg, s, e);
    TransferLockStep(cfg, s, e, c);
    HoldsStep(cfg, s, e);
    SameKindSameLock(s, c, s.tasks[e.task].call);
    UnlockHolds(cfg, s.tasks[e.task]);
    assert ControlOk(cfg, s, e.task);
  }

  lemma SameKindSameLock(s: State, c: Call, d: Call)
    ensures c.Write? == d.Write? ==> s.TransferLock(c) == s.TransferLock(d)
  {
  }

  lemma PublishHeldStep(cfg: Config, s: State, e: Event)
    requires Inv(cfg, s) && PublishHeld(s) && Enabled(s, e)
    ensures PublishHeld(Apply(cfg, s, e))
  {
    hide Apply, InPublish, Knows, RingAfter, Ring.Used;
    StepEffect(cfg, s, e);
    LockStep(cfg, s, e);
    PublishStep(cfg, s, e);
    UnlockHolds(cfg, s.tasks[e.task]);
    assert ControlOk(cfg, s, e.task);
  }

  lemma HeldStep(cfg: Config, s: State, e: Event)
    requires Inv(cfg, s) && Held(cfg, s) && Enabled(s, e) && !InterruptsWait(s, e)
    ensures Held(cfg, Apply(cfg, s, e))
  {
    hide Inv, TransferHeld, PublishHeld, Enabled, Apply;
    TransferHeldStep(cfg, s, e, Write([]));
    TransferHeldStep(cfg, s, e, Read(0));
    PublishHeldStep(cfg, s, e);
  }

  /** No wait of the run is interrupted; signals may arrive otherwise. */
  predicate NoWaitInterrupted(cfg: Config, s: State, run: seq<Event>)
    requires Enables(cfg, s, run)
    decreases |run|
  {
    run != [] ==> !InterruptsWait(s, run[0]) && NoWaitInterrupted(cfg, Apply(cfg, s, run[0]), run[1..])
  }

  lemma {:induction false} NoSignalsNoInterrupt(cfg: Config, s: State, run: seq<Event>)
    requires Enables(cfg, s, run) && NoSignals(run)
    ensures NoWaitInterrupted(cfg, s, run)
    decreases |run|
  {
    hide Enabled, Apply;
    if run != [] {
      NoSignalsNoInterrupt(cfg, Apply(cfg, s, run[0]), run[1..]);
    }
  }

  lemma {:induction false} HeldRun(cfg: Config, s: State, run: seq<Event>)
    requires Inv(cfg, s) && Held(cfg, s) && Enables(cfg, s, run) && NoWaitInterrupted(cfg, s, run)
    ensures Held(cfg, After(cfg, s, run))
    decreases |run|
  {
    hide Inv, Held, Enabled, Apply, InterruptsWait;
    if run != [] {
      StepInv(cfg, s, run[0]);
      HeldStep(cfg, s, run[0]);
      HeldRun(cfg, Apply(cfg, s, run[0]), run[1..]);
    }
  }

  /** No task can take a step of the call it is in. */
  predicate Halted(s: State) {
    forall t :: t in s.tasks ==> !Enabled(s, Event(t, Step))
  }

  /** Everybody is at rest, or a writer sleeps for more room than there is and the others queue behind it. */
  ghost predicate AtRestOrFull(s: State) {
    || (forall t :: t in s.tasks ==> s.tasks[t].pc.Idle?)
    || (exists u :: s.Asleep(u) && s.ring.Free() < s.tasks[u].call.Need()
                    && forall t :: t in s.tasks && t != u ==>
                       s.tasks[t].pc.Idle? || (s.tasks[t].pc.Lock? && s.tasks[t].call.Write?))
  }

  /** Whoever holds a lock can move, except for a writer asleep. */
  lemma HoldersMove(cfg: Config, s: State)
    requires Inv(cfg, s) && Held(cfg, s)
    ensures s.lock.Some? ==> s.lock.value in s.tasks && Enabled(s, Event(s.lock.value, Step))
    ensures s.rLock.Some? ==> s.rLock.value in s.tasks && Enabled(s, Event(s.rLock.value, Step))
    ensures s.wLock.Some? ==> s.wLock.value in s.tasks
                              && (Enabled(s, Event(s.wLock.value, Step)) || s.Asleep(s.wLock.value))
  {
    hide Ring.Used, Ring.Free, Knows;
    assert TransferHeld(cfg, s, Write([])) && TransferHeld(cfg, s, Read(0));
    if s.rLock.Some? {
      assert ControlOk(cfg, s, s.rLock.value);
    }
  }

  /** A halted task is at rest, asleep, or waits for a lock; nobody waits for `lock` or for the reader lock. */
  lemma HaltedTask(cfg: Config, s: State, t: Tid)
    requires Inv(cfg, s) && Held(cfg, s) && Halted(s) && t in s.tasks
    ensures var k := s.tasks[t];
      k.pc.Idle? || s.Asleep(t) || (k.pc.Lock? && k.call.Write? && s.wLock.Some? && s.Asleep(s.wLock.value))
  {
    hide Ring.Used, Ring.Free, Knows, Held;
    HoldersMove(cfg, s);
    assert !Enabled(s, Event(t, Step));
  }

  lemma SleeperNeedsRoom(cfg: Config, s: State, u: Tid)
    requires Inv(cfg, s) && WakeInv(cfg, s) && s.Asleep(u)
    requires forall t :: t in s.tasks ==> s.tasks[t].pc.Idle? || s.tasks[t].pc.Sleep? || s.tasks[t].pc.Lock?
    ensures s.ring.Free() < s.tasks[u].call.Need()
  {
    hide Ring.Used, Ring.Free, Knows;
    assert !SomePending(cfg, s) && !SomeUnreadReader(cfg, s) && !ReaderStores(s);
  }

  lemma HaltedIsAtRestOrFull(cfg: Config, s: State)
    requires Inv(cfg, s) && Held(cfg, s) && WakeInv(cfg, s) && Halted(s)
    ensures AtRestOrFull(s)
  {
    hide Held, Halted, WakeInv, Enabled, Ring.Used, Ring.Free, Knows;
    forall t | t in s.tasks
      ensures s.tasks[t].pc.Idle? || s.Asleep(t)
              || (s.tasks[t].pc.Lock? && s.tasks[t].call.Write? && s.wLock.Some? && s.Asleep(s.wLock.value))
    {
      HaltedTask(cfg, s, t);
    }
    if t :| t in s.tasks && !s.tasks[t].pc.Idle? {
      var u := if s.Asleep(t) then t else s.wLock.value;
      SleeperNeedsRoom(cfg, s, u);
      forall v | v in s.tasks && v != u
        ensures s.tasks[v].pc.Idle? || (s.tasks[v].pc.Lock? && s.tasks[v].call.Write?)
      {
        assert ControlOk(cfg, s, u) && ControlOk(cfg, s, v);
      }
    }
  }

  ghost predicate HaltsOnlyWhenFull(cfg: Config) {
    forall run :: Enables(cfg, Init(cfg), run) && NoWaitInterrupted(cfg, Init(cfg), run)
                  && Halted(After(cfg, Init(cfg), run))
                  ==> AtRestOrFull(After(cfg, Init(cfg), run))
  }

  /** The device halts only for lack of room, or at rest, exactly when the count is stored before the wake-up and the
      capacity was not rounded up. */
  lemma HaltsOnlyWhenFullExactly(cfg: Config)
    requires cfg.Valid() && |cfg.tasks| >= 2
    ensures HaltsOnlyWhenFull(cfg) <==> cfg.order == StoreThenWake && IsPow2(cfg.fsize)
  {
    hide Ring.Used, Ring.Free, AtRestOrFull, Halted, WakeInv, Inv, Stranded;
    InitInv(cfg);
    if cfg.order == StoreThenWake && IsPow2(cfg.fsize) {
      InitWakes(cfg);
      forall run | Enables(cfg, Init(cfg), run) && NoWaitInterrupted(cfg, Init(cfg), run)
                   && Halted(After(cfg, Init(cfg), run))
        ensures AtRestOrFull(After(cfg, Init(cfg), run))
      {
        WakeRun(cfg, Init(cfg), run);
        HeldRun(cfg, Init(cfg), run);
        HaltedIsAtRestOrFull(cfg, After(cfg, Init(cfg), run));
      }
    } else {
      var a, b := TwoOf(cfg.tasks);
      var run;
      if IsPow2(cfg.fsize) {
        run := StrandingRun(cfg, a, b);
      } else {
        run := StrandingRunWhenRounded(cfg, a, b);
      }
      NoSignalsNoInterrupt(cfg, Init(cfg), run);
      StrandedIsHalted(cfg, After(cfg, Init(cfg), run), a);
    }
  }

  lemma StrandedIsHalted(cfg: Config, s: State, t: Tid)
    requires Stranded(cfg, s, t)
    ensures Halted(s) && !AtRestOrFull(s)
  {
  }

  // After stranding

  predicate NoNewReads(run: seq<Event>) {
    forall i :: 0 <= i < |run| ==> !(run[i].action.Begin? && run[i].action.call.Read?)
  }

  predicate NoReaderActive(s: State) {
    forall u :: u in s.tasks && s.tasks[u].call.Read? ==> s.tasks[u].pc.Idle?
  }

  lemma DesertedStep(cfg: Config, s: State, e: Event, t: Tid)
    requires Inv(cfg, s) && Enabled(s, e) && s.Asleep(t) && s.tasks[t].call.Write? && NoReaderActive(s)
    requires !(e.action.Begin? && e.action.call.Read?) && e != Event(t, Signal)
    ensures var s' := Apply(cfg, s, e);
      s'.Asleep(t) && s'.tasks[t].call.Write? && NoReaderActive(s') && s'.sent == s.sent
  {
    hide Ring.Used, Ring.Free, Ring.Valid, Ring.At, Ring.AdvanceIn, Ring.AdvanceOut, Ring.StoreAt, NextByte, Knows;
    assert ControlOk(cfg, s, e.task) && ControlOk(cfg, s, t);
    StepEffect(cfg, s, e);
  }

  /** A stranded writer stays asleep, and no byte of any writer enters the ring, until somebody reads. */
  lemma {:induction false} StrandedUntilNextRead(cfg: Config, s: State, t: Tid, run: seq<Event>)
    requires Inv(cfg, s) && s.Asleep(t) && s.tasks[t].call.Write? && NoReaderActive(s)
    requires Enables(cfg, s, run) && NoNewReads(run) && Event(t, Signal) !in run
    ensures After(cfg, s, run).Asleep(t) && After(cfg, s, run).sent == s.sent
    decreases |run|
  {
    hide Inv, Enabled, Apply, NoReaderActive;
    if run != [] {
      StepInv(cfg, s, run[0]);
      DesertedStep(cfg, s, run[0], t);
      StrandedUntilNextRead(cfg, Apply(cfg, s, run[0]), t, run[1..]);
    }
  }

  // An interrupted wait

  /** The writer lock belongs to a task that is not inside its write any more. */
  predicate Leaked(cfg: Config, s: State, t: Tid) {
    && s.wLock == Some(t) && t in s.tasks
    && !(s.tasks[t].call.Write? && HoldsTransfer(cfg, s.tasks[t]))
  }

  lemma LeakedStep(cfg: Config, s: State, e: Event, t: Tid)
    requires Inv(cfg, s) && Enabled(s, e) && Leaked(cfg, s, t)
    ensures Leaked(cfg, Apply(cfg, s, e), t) && Apply(cfg, s, e).sent == s.sent
  {
    hide Apply, Knows, RingAfter, Ring.Used;
    assert ControlOk(cfg, s, e.task);
    StepEffect(cfg, s, e);
    TransferLockStep(cfg, s, e, Write([]));
    HoldsStep(cfg, s, e);
    assert s.TransferLock(Write([])) == s.wLock;
  }

  lemma {:induction false} LeakedRun(cfg: Config, s: State, t: Tid, run: seq<Event>)
    requires Inv(cfg, s) && Leaked(cfg, s, t) && Enables(cfg, s, run)
    ensures Leaked(cfg, After(cfg, s, run), t) && After(cfg, s, run).sent == s.sent
    decreases |run|
  {
    hide Inv, Leaked, Enabled, Apply;
    if run != [] {
      StepInv(cfg, s, run[0]);
      LeakedStep(cfg, s, run[0], t);
      LeakedRun(cfg, Apply(cfg, s, run[0]), t, run[1..]);
    }
  }

  lemma InterruptLeaks(cfg: Config, s: State, t: Tid)
    requires Inv(cfg, s) && Enabled(s, Event(t, Signal)) && s.tasks[t].pc.Test?
    ensures Leaked(cfg, Apply(cfg, s, Event(t, Signal)), t) && Apply(cfg, s, Event(t, Signal)).sent == s.sent
  {
    hide Ring.Used, Ring.Free, Ring.Valid, Knows;
    assert ControlOk(cfg, s, t);
  }

  /** The return from an interrupted wait keeps the writer lock: no byte enters the ring in any run thereafter. */
  lemma InterruptedWaitEndsAllWrites(cfg: Config, s: State, t: Tid, run: seq<Event>)
    requires Inv(cfg, s) && Enabled(s, Event(t, Signal)) && s.tasks[t].pc.Test?
    requires Enables(cfg, Apply(cfg, s, Event(t, Signal)), run)
    ensures var s' := After(cfg, Apply(cfg, s, Event(t, Signal)), run);
      s'.wLock == Some(t) && s'.sent == s.sent
  {
    InterruptLeaks(cfg, s, t);
    StepInv(cfg, s, Event(t, Signal));
    LeakedRun(cfg, Apply(cfg, s, Event(t, Signal)), t, run);
  }

  lemma LeakedIsNotHeld(cfg: Config, s: State, t: Tid)
    requires Leaked(cfg, s, t)
    ensures !Held(cfg, s)
  {
    assert s.TransferLock(Write([])) == Some(t);
  }

  lemma {:induction false} InterruptedRun(cfg: Config, s: State, run: seq<Event>)
    requires Inv(cfg, s) && Enables(cfg, s, run) && !NoWaitInterrupted(cfg, s, run)
    ensures !Held(cfg, After(cfg, s, run))
    decreases |run|
  {
    hide Inv, Held, Enabled, Leaked, Apply;
    var s' := Apply(cfg, s, run[0]);
    StepInv(cfg, s, run[0]);
    if InterruptsWait(s, run[0]) {
      InterruptLeaks(cfg, s, run[0].task);
      LeakedRun(cfg, s', run[0].task, run[1..]);
      LeakedIsNotHeld(cfg, After(cfg, s, run), run[0].task);
    } else {
      InterruptedRun(cfg, s', run[1..]);
    }
  }

  /** Every lock that is taken has a holder that will release it, exactly if no wait of the run was interrupted. */
  lemma LocksComeBackExactlyIfUninterrupted(cfg: Config, run: seq<Event>)
    requires cfg.Valid() && Enables(cfg, Init(cfg), run)
    ensures Held(cfg, After(cfg, Init(cfg), run)) <==> NoWaitInterrupted(cfg, Init(cfg), run)
  {
    hide Inv, Held;
    InitInv(cfg);
    InitHeld(cfg);
    if NoWaitInterrupted(cfg, Init(cfg), run) {
      HeldRun(cfg, Init(cfg), run);
    } else {
      InterruptedRun(cfg, Init(cfg), run);
    }
  }

  lemma InitHeld(cfg: Config)
    ensures Held(cfg, Init(cfg))
  {
  }

  // Signals

  /** A signal while a call waits for its lock ends the call and changes nothing else. */
  lemma SignalAtLock(cfg: Config, s: State, t: Tid)
    requires Inv(cfg, s) && t in s.tasks && s.tasks[t].pc.Lock?
    ensures Enabled(s, Event(t, Signal)) && Apply(cfg, s, Event(t, Signal)) == s.Put(t, RESTING)
  {
    hide Ring.Used, Knows;
    assert ControlOk(cfg, s, t);
    assert s.waiting - {t} == s.waiting;
  }

  /** A signal to a sleeper, then its test: with enough in the count the write goes on, and it can be interrupted
      exactly if not. */
  lemma SignalToSleeper(cfg: Config, s: State, t: Tid) returns (run: seq<Event>, s': State)
    requires s.Asleep(t) && s.ring.Valid()
    ensures Reaches(cfg, s, run, s') && run != [] && run[0] == Event(t, Signal)
    ensures s' == s.Put(t, s.tasks[t].(pc := Test))
    ensures Enabled(s', Event(t, Signal)) <==> s.avail < s.tasks[t].call.Need()
    ensures Enabled(s', Event(t, Step)) && (Apply(cfg, s', Event(t, Step)).tasks[t].pc.Measure?
                                            <==> s.avail >= s.tasks[t].call.Need())
  {
    hide Ring.Used, Ring.Free;
    var m;
    run := Nothing(cfg, s);
    run, m := Then(cfg, s, run, s, Event(t, Signal));
    run, s' := Then(cfg, s, run, m, Event(t, Step));
    assert s.waiting + {t} == s.waiting && s'.tasks == s.tasks[t := s'.tasks[t]];
  }

  /** The interrupted wait does happen, for every size: a write of more than the count sleeps from setup on; two signals
      later its task is at rest, with an empty ring, and the writer lock is taken for good. */
  lemma InterruptedWaitRun(cfg: Config, a: Tid) returns (run: seq<Event>, m: State)
    requires cfg.Valid() && a in cfg.tasks
    ensures Reaches(cfg, Init(cfg), run, m) && !NoWaitInterrupted(cfg, Init(cfg), run)
    ensures m == Init(cfg).(wLock := Some(a))
  {
    hide Ring.Used, Ring.Free;
    var s := Init(cfg);
    var more, s';
    InitInv(cfg);
    run, m := SleepAlone(cfg, s, a, seq(cfg.fsize + 1, _ => 0));
    more, s' := SignalToSleeper(cfg, m, a);
    Join(cfg, s, run, m, more, s');
    run, m := Then(cfg, s, run + more, s', Event(a, Signal));
    assert m.tasks == s.tasks && m.waiting == {};
    LeakedIsNotHeld(cfg, m, a);
    LocksComeBackExactlyIfUninterrupted(cfg, run);
  }
}
