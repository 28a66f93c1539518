/**
 Wake-ups. A writer sleeps on the cached count; readers store the count and wake the queue. Whether a sleeping writer
 can be left behind depends on the order of those two, and on whether the capacity was rounded up.
 */
module SharedFifoWakeups {
  import opened Words
  import opened Kfifo
  import opened SharedFifo
  import opened SharedFifoQueue
  import opened SharedFifoCache
  import opened SharedFifoSolo

  /** A reader between its transfer and the end of its publish and wake steps. */
  predicate PendingReader(cfg: Config, k: Task) {
    k.call.Read? && (Unstored(cfg, k) || k.pc.PubUnlock? || k.pc.Wake?)
  }

  predicate UnreadReader(cfg: Config, k: Task) { k.call.Read? && Unread(cfg, k) }

  ghost predicate SomePending(cfg: Config, s: State) {
    exists t :: t in s.tasks && PendingReader(cfg, s.tasks[t])
  }

  ghost predicate SomeUnreadReader(cfg: Config, s: State) {
    exists t :: t in s.tasks && UnreadReader(cfg, s.tasks[t])
  }

  predicate ReaderStores(s: State) { InStore(s) && s.tasks[s.lock.value].call.Read? }

  /** No sleeping writer whose test would now succeed, unless a reader is still to wake it. */
  ghost predicate NoneStranded(cfg: Config, s: State) {
    forall t :: s.Asleep(t) && s.tasks[t].call.Need() <= s.avail ==> SomePending(cfg, s)
  }

  /** The free space is never ahead of the settled count, nor the settled count of the stored one, except through a
      reader that has not got that far. */
  ghost predicate WakeInv(cfg: Config, s: State) {
    && (s.ring.Free() <= Settled(s) || SomeUnreadReader(cfg, s))
    && (Settled(s) <= s.avail || SomeUnreadReader(cfg, s) || ReaderStores(s))
    && NoneStranded(cfg, s)
  }

  lemma KeepsUnreadReader(cfg: Config, s: State, e: Event)
    requires Inv(cfg, s) && Enabled(s, e) && SomeUnreadReader(cfg, s)
    requires !(PublishesRead(s.tasks[e.task], e.action) && s.tasks[e.task].call.Read?)
    ensures SomeUnreadReader(cfg, Apply(cfg, s, e))
  {
    hide Apply, Ring.Used, Ring.Free, Knows, ControlOk, Unread;
    StepEffect(cfg, s, e);
    UnreadStep(cfg, s, e);
    var u :| u in s.tasks && UnreadReader(cfg, s.tasks[u]);
    assert UnreadReader(cfg, Apply(cfg, s, e).tasks[u]);
  }

  lemma NewUnreadReader(cfg: Config, s: State, e: Event)
    requires Inv(cfg, s) && Enabled(s, e) && Commits(s.tasks[e.task], e.action) && s.tasks[e.task].call.Read?
    ensures SomeUnreadReader(cfg, Apply(cfg, s, e))
  {
    hide Ring.Used, Ring.Free, Ring.Valid, Ring.AdvanceIn, Ring.AdvanceOut, Knows, ControlOk, Unread;
    UnreadStep(cfg, s, e);
    assert UnreadReader(cfg, Apply(cfg, s, e).tasks[e.task]);
  }

  /** A writer's publication lowers the free space and, at most as much, the settled count. */
  lemma WriterCommits(cfg: Config, s: State, e: Event)
    requires Inv(cfg, s) && Enabled(s, e) && Commits(s.tasks[e.task], e.action) && s.tasks[e.task].call.Write?
    requires s.ring.Free() <= Settled(s)
    ensures var s' := Apply(cfg, s, e); s'.ring.Free() <= Settled(s') <= Settled(s)
  {
    hide Apply, Ring.Used, Ring.Free, Knows, ControlOk, Settled;
    SettledStep(cfg, s, e);
    FreeStep(cfg, s, e);
    FreeIsWord(s.ring);
  }

  lemma FreeBehindSettled(cfg: Config, s: State, e: Event)
    requires Inv(cfg, s) && Enabled(s, e) && WakeInv(cfg, s)
    ensures var s' := Apply(cfg, s, e); s'.ring.Free() <= Settled(s') || SomeUnreadReader(cfg, s')
  {
    hide Apply, Ring.Used, Ring.Free, Knows, ControlOk, Settled, NoneStranded, SomeUnreadReader;
    var k := s.tasks[e.task];
    SettledStep(cfg, s, e);
    FreeStep(cfg, s, e);
    if SomeUnreadReader(cfg, s) && !PublishesRead(k, e.action) {
      KeepsUnreadReader(cfg, s, e);
    } else if Commits(k, e.action) {
      if k.call.Read? {
        NewUnreadReader(cfg, s, e);
      } else {
        WriterCommits(cfg, s, e);
      }
    }
  }

  /** A reader that has begun to read the free space goes on to store it. */
  lemma ReaderStoresStep(cfg: Config, s: State, e: Event)
    requires Inv(cfg, s) && Enabled(s, e)
    ensures var k, s' := s.tasks[e.task], Apply(cfg, s, e);
      && (PublishesRead(k, e.action) && k.call.Read? ==> ReaderStores(s'))
      && (ReaderStores(s) && !StoresCount(k, e.action) ==> ReaderStores(s'))
  {
    hide Apply, Ring.Used, Ring.Free, FreeBetween, Knows, ShapeOk, RingAfter, Seen;
    assert ControlOk(cfg, s, e.task);
    StepEffect(cfg, s, e);
    LockStep(cfg, s, e);
    ReadingStep(cfg, s, e);
    if s.lock.Some? && s.lock.value in s.tasks {
      assert ControlOk(cfg, s, s.lock.value);
    }
  }

  lemma SettledBehindStored(cfg: Config, s: State, e: Event)
    requires Inv(cfg, s) && Enabled(s, e) && WakeInv(cfg, s)
    ensures var s' := Apply(cfg, s, e);
      Settled(s') <= s'.avail || SomeUnreadReader(cfg, s') || ReaderStores(s')
  {
    hide Apply, Ring.Used, Ring.Free, Knows, ControlOk, Settled, NoneStranded, SomeUnreadReader, ReaderStores;
    var k := s.tasks[e.task];
    SettledStep(cfg, s, e);
    AvailStep(cfg, s, e);
    ReaderStoresStep(cfg, s, e);
    if SomeUnreadReader(cfg, s) && !(PublishesRead(k, e.action) && k.call.Read?) {
      KeepsUnreadReader(cfg, s, e);
    } else if Commits(k, e.action) {
      if k.call.Read? {
        NewUnreadReader(cfg, s, e);
      } else {
        WriterCommits(cfg, s, e);
      }
    }
  }

  // Sleepers

  /** With the wake-up last, a pending reader stays pending until it has woken the queue. */
  lemma PendingStep(cfg: Config, s: State, e: Event)
    requires cfg.order == StoreThenWake && Inv(cfg, s) && Enabled(s, e)
    ensures var k, k' := s.tasks[e.task], Apply(cfg, s, e).tasks[e.task];
      PendingReader(cfg, k) && !(e.action.Step? && k.pc.Wake?) ==> PendingReader(cfg, k')
  {
    hide Ring.Used, Ring.Free, Ring.Valid, Ring.At, Ring.AdvanceIn, Ring.AdvanceOut, Ring.StoreAt, NextByte, Knows;
    assert ControlOk(cfg, s, e.task);
  }

  lemma KeepsPending(cfg: Config, s: State, e: Event)
    requires cfg.order == StoreThenWake && Inv(cfg, s) && Enabled(s, e) && SomePending(cfg, s)
    requires !(e.action.Step? && s.tasks[e.task].pc.Wake?)
    ensures SomePending(cfg, Apply(cfg, s, e))
  {
    hide Apply, Ring.Used, Ring.Free, Knows, ControlOk, PendingReader;
    StepEffect(cfg, s, e);
    PendingStep(cfg, s, e);
    var u :| u in s.tasks && PendingReader(cfg, s.tasks[u]);
    assert PendingReader(cfg, Apply(cfg, s, e).tasks[u]);
  }

  /** Who sleeps after a step slept before, or has just tested the count in vain; after a wake-up nobody does. */
  lemma SleepStep(cfg: Config, s: State, e: Event, t: Tid)
    requires Inv(cfg, s) && Enabled(s, e) && Apply(cfg, s, e).Asleep(t)
    ensures var s' := Apply(cfg, s, e);
      && t in s.tasks && s'.tasks[t].call == s.tasks[t].call
      && !(e.action.Step? && s.tasks[e.task].pc.Wake?)
      && (s.Asleep(t) || (t == e.task && s'.avail == s.avail < s.tasks[t].call.Need()))
  {
    hide Ring.Used, Ring.Free, Ring.Valid, Ring.At, Ring.AdvanceIn, Ring.AdvanceOut, Ring.StoreAt, NextByte, Knows;
    assert ControlOk(cfg, s, e.task);
    StepEffect(cfg, s, e);
  }

  lemma NoneStrandedStep(cfg: Config, s: State, e: Event)
    requires cfg.order == StoreThenWake && Inv(cfg, s) && Enabled(s, e) && WakeInv(cfg, s)
    ensures NoneStranded(cfg, Apply(cfg, s, e))
  {
    hide Apply, Ring.Used, Ring.Free, Knows, ControlOk, Settled, SomePending, SomeUnreadReader;
    var k, s' := s.tasks[e.task], Apply(cfg, s, e);
    AvailStep(cfg, s, e);
    StepEffect(cfg, s, e);
    forall t | s'.Asleep(t) && s'.tasks[t].call.Need() <= s'.avail
      ensures SomePending(cfg, s')
    {
      SleepStep(cfg, s, e, t);
      if StoresCount(k, e.action) && k.call.Read? {
        ReadingStep(cfg, s, e);
        ReaderIsPending(cfg, s', e.task);
      } else {
        if StoresCount(k, e.action) && SomeUnreadReader(cfg, s) {
          UnreadIsPending(cfg, s);
        }
        KeepsPending(cfg, s, e);
      }
    }
  }

  lemma ReaderIsPending(cfg: Config, s: State, t: Tid)
    requires t in s.tasks && s.tasks[t].call.Read? && (s.tasks[t].pc.PubUnlock? || ReadsCount(s.tasks[t].pc))
    ensures SomePending(cfg, s)
  {
    assert PendingReader(cfg, s.tasks[t]);
  }

  lemma UnreadIsPending(cfg: Config, s: State)
    requires SomeUnreadReader(cfg, s)
    ensures SomePending(cfg, s)
  {
    var u :| u in s.tasks && UnreadReader(cfg, s.tasks[u]);
    assert PendingReader(cfg, s.tasks[u]);
  }

  lemma {:induction false} WakeRun(cfg: Config, s: State, run: seq<Event>)
    requires cfg.order == StoreThenWake && Inv(cfg, s) && WakeInv(cfg, s) && Enables(cfg, s, run)
    ensures Inv(cfg, After(cfg, s, run)) && WakeInv(cfg, After(cfg, s, run))
    decreases |run|
  {
    hide WakeInv, Inv, Enabled, Apply;
    if run != [] {
      WakeStep(cfg, s, run[0]);
      WakeRun(cfg, Apply(cfg, s, run[0]), run[1..]);
    }
  }

  lemma WakeStep(cfg: Config, s: State, e: Event)
    requires cfg.order == StoreThenWake && Inv(cfg, s) && WakeInv(cfg, s) && Enabled(s, e)
    ensures Inv(cfg, Apply(cfg, s, e)) && WakeInv(cfg, Apply(cfg, s, e))
  {
    hide Inv, Enabled, Apply, Settled, NoneStranded, SomeUnreadReader, ReaderStores;
    StepInv(cfg, s, e);
    FreeBehindSettled(cfg, s, e);
    SettledBehindStored(cfg, s, e);
    NoneStrandedStep(cfg, s, e);
  }

  // The driver's own order

  /** A writer asleep although its test would succeed and the ring has room, and nobody is left to wake it. */
  ghost predicate Stranded(cfg: Config, s: State, t: Tid) {
    && s.Asleep(t) && s.tasks[t].call.Write?
    && s.tasks[t].call.Need() <= s.avail && s.tasks[t].call.Need() <= s.ring.Free()
    && forall u :: u in s.tasks && u != t ==> s.tasks[u].pc.Idle?
  }

  /** Into the queue, the test in vain, and to sleep. */
  lemma QueueAlone(cfg: Config, s: State, t: Tid) returns (run: seq<Event>, s': State)
    requires t in s.tasks && s.tasks[t].pc.Enqueue? && s.ring.Valid() && s.avail < s.tasks[t].call.Need()
    ensures Reaches(cfg, s, run, s') && OnlyBy(run, t)
    ensures s' == s.(waiting := s.waiting + {t}).Put(t, s.tasks[t].(pc := Sleep))
  {
    hide Ring.Used, Ring.Free;
    var m;
    run := Nothing(cfg, s);
    run, m := On(cfg, s, run, s, t);
    assert m.tasks[t].pc.Test?;
    run, s' := On(cfg, s, run, m, t);
    assert s'.tasks == s.tasks[t := s'.tasks[t]];
  }

  /** A write that has to sleep. */
  lemma SleepAlone(cfg: Config, s: State, t: Tid, buf: seq<Byte>) returns (run: seq<Event>, s': State)
    requires t in s.tasks && s.tasks[t] == RESTING && s.ring.Valid() && s.wLock == None && s.avail < |buf|
    ensures Reaches(cfg, s, run, s') && OnlyBy(run, t)
    ensures s' == s.(wLock := Some(t), waiting := s.waiting + {t}).Put(t, Task(Write(buf), Sleep, 0, [], false))
  {
    hide Ring.Used, Ring.Free;
    var m, more;
    run := Nothing(cfg, s);
    run, m := Then(cfg, s, run, s, Event(t, Begin(Write(buf))));
    run, m := On(cfg, s, run, m, t);
    assert m.tasks[t].pc.Try?;
    run, m := On(cfg, s, run, m, t);
    assert m.tasks[t].pc.Enqueue?;
    more, s' := QueueAlone(cfg, m, t);
    Join(cfg, s, run, m, more, s');
    run := run + more;
    assert s'.tasks == s.tasks[t := s'.tasks[t]];
  }

  /** A woken writer whose test fails again goes back to sleep. */
  lemma SleepAgainAlone(cfg: Config, s: State, t: Tid) returns (run: seq<Event>, s': State)
    requires t in s.tasks && s.tasks[t].pc.Sleep? && t !in s.waiting && s.ring.Valid()
    requires s.avail < s.tasks[t].call.Need()
    ensures Reaches(cfg, s, run, s') && OnlyBy(run, t)
    ensures s' == s.(waiting := s.waiting + {t})
  {
    hide Ring.Used, Ring.Free;
    var m, more;
    run := Nothing(cfg, s);
    run, m := On(cfg, s, run, s, t);
    more, s' := QueueAlone(cfg, m, t);
    Join(cfg, s, run, m, more, s');
    run := run + more;
    assert s'.tasks == s.tasks;
  }

  lemma ReturnAlone(cfg: Config, s: State, t: Tid) returns (run: seq<Event>, s': State)
    requires t in s.tasks && s.tasks[t].pc.Return? && s.ring.Valid()
    ensures Reaches(cfg, s, run, s') && OnlyBy(run, t) && s' == s.Put(t, RESTING)
  {
    run := Nothing(cfg, s);
    run, s' := On(cfg, s, run, s, t);
  }

  predicate NoSignals(run: seq<Event>) {
    forall i :: 0 <= i < |run| ==> run[i].action != Signal
  }

  /** One byte in, from setup on. */
  lemma OneByteRun(cfg: Config, a: Tid) returns (run: seq<Event>, m: State)
    requires cfg.Valid() && a in cfg.tasks
    ensures Reaches(cfg, Init(cfg), run, m) && OnlyBy(run, a)
    ensures m.tasks == Init(cfg).tasks && LocksFree(m) && m.waiting == {}
    ensures m.ring.Valid() && m.ring.Size() == cfg.Capacity() && m.ring.Contents() == [0]
    ensures m.avail == m.ring.Free() == cfg.Capacity() - 1
  {
    hide Ring.Used, Ring.At, Ring.StoreAt, Ring.AdvanceIn, Ring.AdvanceOut, Ring.Pushed;
    var s := Init(cfg);
    InitInv(cfg);
    EmptyIsValid(cfg.Capacity());
    var more, s';
    run, m := WriteAlone(cfg, s, a, [0], 1);
    PushAppends(s.ring, [0]);
    assert [0 as Byte][..1] == [0];
    more, s' := ReturnAlone(cfg, m, a);
    Join(cfg, s, run, m, more, s');
    run, m := run + more, s';
    assert m.tasks == s.tasks;
  }

  /** One byte in, then a write of the whole capacity that sleeps, then a read of that byte up to its wake-up. */
  lemma WokenTooEarlyRun(cfg: Config, a: Tid, b: Tid) returns (run: seq<Event>, m: State, buf: seq<Byte>)
    requires cfg.Valid() && cfg.order == WakeThenStore && a in cfg.tasks && b in cfg.tasks && a != b
    ensures Reaches(cfg, Init(cfg), run, m) && NoSignals(run)
    ensures |buf| == cfg.Capacity() && m.waiting == {} && m.lock == None
    ensures m.tasks == Init(cfg).tasks[a := Task(Write(buf), Sleep, 0, [], false)]
                                      [b := Task(Read(1), Unlock, 1, [0], false)]
    ensures m.ring.Valid() && m.ring.Free() == cfg.Capacity() && m.avail == cfg.Capacity() - 1
  {
    hide Ring.Used, Ring.At, Ring.StoreAt, Ring.AdvanceIn, Ring.AdvanceOut, Ring.Pushed;
    var s, n := Init(cfg), cfg.Capacity();
    var more, s';
    run, m := OneByteRun(cfg, a);
    buf := seq(n, _ => 0);
    more, s' := SleepAlone(cfg, m, a, buf);
    Join(cfg, s, run, m, more, s');
    run, m := run + more, s';
    assert m.ring.Used() == |m.ring.Contents()| == 1 && m.ring.Contents()[..1] == [0];
    more, s' := ReadToWakeAlone(cfg, m, b, 1, 1);
    ReleaseDrops(m.ring, 1);
    Join(cfg, s, run, m, more, s');
    run, m := run + more, s';
    assert m.ring.Contents() == [] && m.ring.Free() == n;
  }

  /** The read wakes the writer before it stores the count; the writer tests the old count and sleeps for good. */
  lemma StrandingRun(cfg: Config, a: Tid, b: Tid) returns (run: seq<Event>)
    requires cfg.Valid() && cfg.order == WakeThenStore && a in cfg.tasks && b in cfg.tasks && a != b
    ensures Enables(cfg, Init(cfg), run) && NoSignals(run) && Stranded(cfg, After(cfg, Init(cfg), run), a)
  {
    hide Ring.Used, Ring.Free, Ring.Valid;
    var s := Init(cfg);
    var m, more, s';
    var buf;
    run, m, buf := WokenTooEarlyRun(cfg, a, b);
    more, s' := SleepAgainAlone(cfg, m, a);
    Join(cfg, s, run, m, more, s');
    run, m := run + more, s';
    more, s' := PublishAlone(cfg, m, b);
    Join(cfg, s, run, m, more, s');
    run, m := run + more, s';
    more, s' := ReturnAlone(cfg, m, b);
    Join(cfg, s, run, m, more, s');
    run, m := run + more, s';
  }

  /** A write of nothing, from setup on, up to the release of the writer lock. */
  lemma NothingRun(cfg: Config, b: Tid) returns (run: seq<Event>, m: State)
    requires cfg.Valid() && b in cfg.tasks
    ensures Reaches(cfg, Init(cfg), run, m) && OnlyBy(run, b)
    ensures m.tasks == Init(cfg).tasks[b := Task(Write([]), PubLock, 0, [], false)]
    ensures LocksFree(m) && m.waiting == {} && m.avail == cfg.fsize
    ensures m.ring.Valid() && m.ring.Free() == cfg.Capacity()
  {
    hide Ring.Used, Ring.At, Ring.StoreAt, Ring.AdvanceIn, Ring.AdvanceOut, Ring.Pushed;
    var s := Init(cfg);
    InitInv(cfg);
    EmptyIsValid(cfg.Capacity());
    run, m := TransferInAlone(cfg, s, b, [], 0);
    PushAppends(s.ring, []);
    assert m.ring.Contents() == [];
    run, m := On(cfg, s, run, m, b);
  }

  /** With a capacity that was rounded up, a write of nothing is enough, in either order: another writer finds the
      parameter in `avail`, sleeps for the whole capacity, and the store of the true count wakes nobody. */
  lemma StrandingRunWhenRounded(cfg: Config, a: Tid, b: Tid) returns (run: seq<Event>)
    requires cfg.Valid() && !IsPow2(cfg.fsize) && a in cfg.tasks && b in cfg.tasks && a != b
    ensures Enables(cfg, Init(cfg), run) && NoSignals(run) && Stranded(cfg, After(cfg, Init(cfg), run), a)
  {
    hide Ring.Used, Ring.At, Ring.StoreAt, Ring.AdvanceIn, Ring.AdvanceOut, Ring.Pushed;
    var s, n := Init(cfg), cfg.Capacity();
    RoundUpIsLeast(cfg.fsize);
    var m, more, s';
    run, m := NothingRun(cfg, b);
    more, s' := SleepAlone(cfg, m, a, seq(n, _ => 0));
    Join(cfg, s, run, m, more, s');
    run, m := run + more, s';
    more, s' := StoreCountAlone(cfg, m, b);
    Join(cfg, s, run, m, more, s');
    run, m := run + more, s';
    more, s' := ReturnAlone(cfg, m, b);
    Join(cfg, s, run, m, more, s');
    run, m := run + more, s';
  }

  /** In every run, no writer is left asleep with its test satisfied once the readers are through. */
  ghost predicate NeverStrands(cfg: Config) {
    forall run :: Enables(cfg, Init(cfg), run) ==> NoneStranded(cfg, After(cfg, Init(cfg), run))
  }

  /** Exactly a store before the wake-up and a capacity that was not rounded up rule it out. */
  lemma NeverStrandsExactly(cfg: Config)
    requires cfg.Valid() && |cfg.tasks| >= 2
    ensures NeverStrands(cfg) <==> cfg.order == StoreThenWake && IsPow2(cfg.fsize)
  {
    hide Ring.Used;
    InitInv(cfg);
    if cfg.order == StoreThenWake && IsPow2(cfg.fsize) {
      InitWakes(cfg);
      forall run | Enables(cfg, Init(cfg), run)
        ensures NoneStranded(cfg, After(cfg, Init(cfg), run))
      {
        WakeRun(cfg, Init(cfg), run);
      }
    } else {
      var a, b := TwoOf(cfg.tasks);
      var run;
      if IsPow2(cfg.fsize) {
        run := StrandingRun(cfg, a, b);
      } else {
        run := StrandingRunWhenRounded(cfg, a, b);
      }
      var s := After(cfg, Init(cfg), run);
      assert !SomePending(cfg, s);
      assert !NoneStranded(cfg, s);
    }
  }

  lemma InitWakes(cfg: Config)
    requires cfg.Valid() && IsPow2(cfg.fsize)
    ensures WakeInv(cfg, Init(cfg))
  {
    RoundUpIsLeast(cfg.fsize);
    RoundUpInRange(cfg.fsize);
    EmptyIsValid(cfg.Capacity());
  }

  lemma TwoOf(ts: set<Tid>) returns (a: Tid, b: Tid)
    requires |ts| >= 2
    ensures a in ts && b in ts && a != b
  {
    a :| a in ts;
    assert |ts - {a}| == |ts| - 1;
    b :| b in ts - {a};
  }
}
