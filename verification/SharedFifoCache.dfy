/**
 The cached free-space count. `avail` is read without a lock and stored after the transfer lock is gone; it still
 agrees with the ring whenever no call stands between its transfer and its store.
 */
module SharedFifoCache {
  import opened Words
  import opened Kfifo
  import opened SharedFifo
  import opened SharedFifoQueue
  import opened SharedFifoSolo

  /** Transferred, and the reading of the free space not begun. */
  predicate Unread(cfg: Config, k: Task) {
    match k.pc
    case Unlock | PubLock | PubRead => true
    case Wake => cfg.order.WakeThenStore?
    case _ => false
  }

  /** Transferred, and the count not stored yet. */
  predicate Unstored(cfg: Config, k: Task) { Unread(cfg, k) || ReadsCount(k.pc) }

  /** The holder of `lock` has begun to read the free space and not stored it. */
  predicate InStore(s: State) {
    s.lock.Some? && s.lock.value in s.tasks && ReadsCount(s.tasks[s.lock.value].pc)
  }

  /** The value `avail` has once the holder of `lock` has read on, if anything is left to read, and stored. */
  function Settled(s: State): int {
    if InStore(s) then Seen(s.ring, s.tasks[s.lock.value].pc) else s.avail
  }

  predicate PublishesRead(k: Task, a: Action) { a.Step? && k.pc.PubRead? }

  predicate StoresCount(k: Task, a: Action) { a.Step? && k.pc.PubStore? }

  ghost predicate SomeUnread(cfg: Config, s: State) {
    exists t :: t in s.tasks && Unread(cfg, s.tasks[t])
  }

  /** Agreement, as an invariant: once the store in flight is done, `avail` is the free space. */
  ghost predicate CacheInv(cfg: Config, s: State) {
    SomeUnread(cfg, s) || Settled(s) == s.ring.Free()
  }

  /** Agreement, as observed: `avail` is the free space or some call has transferred and not stored. */
  ghost predicate CacheAgrees(cfg: Config, s: State) {
    s.avail == s.ring.Free() || exists t :: t in s.tasks && Unstored(cfg, s.tasks[t])
  }

  /** What a publication does to a count half read: the counter that is still to be read moves it, the one already
      read does not. Bytes stored without being published do nothing. */
  lemma SeenStep(r: Ring, k: Task, a: Action, pc: Pc)
    requires r.Size() > 0 && ReadsCount(pc)
    ensures var seen, seen' := Seen(r, pc), Seen(RingAfter(r, k, a), pc);
      && (!Commits(k, a) ==> seen' == seen)
      && (Commits(k, a) && k.call.Write? ==> seen' == seen || (seen < WORD && seen' == Word(seen - |k.done|)))
      && (Commits(k, a) && k.call.Read? ==> seen' == seen || (seen < WORD && seen' == Word(seen + |k.done|)))
  {
    hide FreeBetween, NextByte;
    match pc
    case PubOut(i) => FreeBetweenAdvanced(r.Size(), i, r.kout, |k.done|);
    case PubIn(o) => FreeBetweenAdvanced(r.Size(), r.kin, o, |k.done|);
    case PubStore(_) =>
  }

  /** The reading of the free space: begun with what is true then, and carried on with what was seen. */
  lemma ReadingStep(cfg: Config, s: State, e: Event)
    requires Enabled(s, e) && s.ring.Valid()
    ensures var k, k' := s.tasks[e.task], Apply(cfg, s, e).tasks[e.task];
      && (ReadsCount(k'.pc) <==> PublishesRead(k, e.action) || (ReadsCount(k.pc) && !StoresCount(k, e.action)))
      && (ReadsCount(k'.pc) ==> k'.call == k.call)
      && (PublishesRead(k, e.action) ==> Seen(s.ring, k'.pc) == s.ring.Free())
      && (ReadsCount(k.pc) && !StoresCount(k, e.action) ==> k'.pc == PubStore(Seen(s.ring, k.pc)))
      && (StoresCount(k, e.action) ==> k' == k.(pc := PubUnlock))
  {
    hide Ring.Used, Ring.Free, Ring.Valid, Ring.At, Ring.AdvanceIn, Ring.AdvanceOut, Ring.StoreAt, FreeBetween;
    hide NextByte, Effect;
    FreeAtOnce(s.ring);
  }

  /** Beginning to read the free space sets the settled value; a publication by somebody else may move it as it moves
      the free space; nothing else changes it. */
  lemma SettledStep(cfg: Config, s: State, e: Event)
    requires Inv(cfg, s) && Enabled(s, e)
    ensures var k, was, now := s.tasks[e.task], Settled(s), Settled(Apply(cfg, s, e));
      && (PublishesRead(k, e.action) ==> was == s.avail && now == s.ring.Free())
      && (!PublishesRead(k, e.action) && !Commits(k, e.action) ==> now == was)
      && (Commits(k, e.action) && k.call.Write? ==> now == was || (0 <= was < WORD && now == Word(was - |k.done|)))
      && (Commits(k, e.action) && k.call.Read? ==> now == was || (0 <= was < WORD && now == Word(was + |k.done|)))
  {
    hide Apply, Ring.Used, Ring.Free, FreeBetween, Knows, RingAfter, ShapeOk;
    assert ControlOk(cfg, s, e.task);
    var k := s.tasks[e.task];
    StepEffect(cfg, s, e);
    LockStep(cfg, s, e);
    ReadingStep(cfg, s, e);
    if s.lock.Some? && s.lock.value in s.tasks {
      var h := s.lock.value;
      if h != e.task && ReadsCount(s.tasks[h].pc) {
        SeenStep(s.ring, k, e.action, s.tasks[h].pc);
      }
    }
  }

  /** `avail` changes only to the settled value, by the holder of `lock`. */
  lemma AvailStep(cfg: Config, s: State, e: Event)
    requires Inv(cfg, s) && Enabled(s, e)
    ensures var k, s' := s.tasks[e.task], Apply(cfg, s, e);
      && s'.avail == (if StoresCount(k, e.action) then Settled(s) else s.avail)
      && (StoresCount(k, e.action) ==> s.lock == Some(e.task))
  {
    hide Apply, Ring.Used, Ring.Free, FreeBetween, Knows, ShapeOk;
    assert ControlOk(cfg, s, e.task);
    LockStep(cfg, s, e);
  }

  /** A transferred call stays unread until it reads the free space itself. */
  lemma UnreadStep(cfg: Config, s: State, e: Event)
    requires Inv(cfg, s) && Enabled(s, e)
    ensures var k, k' := s.tasks[e.task], Apply(cfg, s, e).tasks[e.task];
      && (Commits(k, e.action) ==> Unread(cfg, k') && k'.call == k.call)
      && (Unread(cfg, k) && !PublishesRead(k, e.action) ==> Unread(cfg, k') && k'.call == k.call)
  {
    hide Ring.Used, Ring.Free, Ring.Valid, Ring.At, Ring.AdvanceIn, Ring.AdvanceOut, Ring.StoreAt, NextByte, Knows;
    assert ControlOk(cfg, s, e.task);
  }

  lemma FreeStep(cfg: Config, s: State, e: Event)
    requires Inv(cfg, s) && Enabled(s, e)
    ensures var k, r' := s.tasks[e.task], Apply(cfg, s, e).ring;
      && (!Commits(k, e.action) ==> r'.Free() == s.ring.Free())
      && (Commits(k, e.action) && k.call.Write? ==> 0 <= r'.Free() == s.ring.Free() - |k.done|)
      && (Commits(k, e.action) && k.call.Read? ==> r'.Free() == s.ring.Free() + |k.done|)
  {
    hide Ring.Used, Apply, ControlOk, RingAfter, NextByte;
    assert Knows(s.ring, s.tasks[e.task]);
    StepEffect(cfg, s, e);
    RingStep(s.ring, s.tasks[e.task], e.action);
  }

  lemma CacheStep(cfg: Config, s: State, e: Event)
    requires Inv(cfg, s) && Enabled(s, e) && (CacheInv(cfg, s) || Commits(s.tasks[e.task], e.action))
    ensures CacheInv(cfg, Apply(cfg, s, e))
  {
    hide Apply, Ring.Used, Ring.Free, Knows, ControlOk, Settled, Unread;
    StepEffect(cfg, s, e);
    SettledStep(cfg, s, e);
    UnreadStep(cfg, s, e);
    FreeStep(cfg, s, e);
    var k, s' := s.tasks[e.task], Apply(cfg, s, e);
    if !PublishesRead(k, e.action) && SomeUnread(cfg, s) {
      var u :| u in s.tasks && Unread(cfg, s.tasks[u]);
      assert u in s'.tasks && Unread(cfg, s'.tasks[u]);
    } else if Commits(k, e.action) {
      assert Unread(cfg, s'.tasks[e.task]);
    }
  }

  lemma CacheInvAgrees(cfg: Config, s: State)
    requires Inv(cfg, s) && CacheInv(cfg, s)
    ensures CacheAgrees(cfg, s)
  {
    if SomeUnread(cfg, s) {
      var u :| u in s.tasks && Unread(cfg, s.tasks[u]);
      assert Unstored(cfg, s.tasks[u]);
    } else if s.avail != s.ring.Free() {
      assert Unstored(cfg, s.tasks[s.lock.value]);
    }
  }

  /** Some operation of the list moves bytes, or at least publishes a counter. */
  ghost predicate SomeMoves(ops: seq<QueueOp>) {
    exists i :: 0 <= i < |ops| && ops[i] != Silent
  }

  lemma MovesLater(ops: seq<QueueOp>)
    requires SomeMoves(ops) && ops[0] == Silent
    ensures SomeMoves(ops[1..])
  {
    var i :| 0 <= i < |ops| && ops[i] != Silent;
    assert ops[1..][i - 1] != Silent;
  }

  lemma {:induction false} CacheRun(cfg: Config, s: State, run: seq<Event>)
    requires Inv(cfg, s) && Enables(cfg, s, run)
    requires CacheInv(cfg, s) || SomeMoves(OpsOf(cfg, s, run))
    ensures Inv(cfg, After(cfg, s, run)) && CacheInv(cfg, After(cfg, s, run))
    decreases |run|
  {
    hide Inv, CacheInv, Enabled, Apply, SomeMoves;
    if run != [] {
      var s', ops := Apply(cfg, s, run[0]), OpsOf(cfg, s, run);
      StepInv(cfg, s, run[0]);
      if CacheInv(cfg, s) || OpOf(s, run[0]) != Silent {
        CacheStep(cfg, s, run[0]);
      } else {
        MovesLater(ops);
        assert ops[1..] == OpsOf(cfg, s', run[1..]);
      }
      CacheRun(cfg, s', run[1..]);
    } else {
      NothingMoves();
    }
  }

  lemma NothingMoves()
    ensures !SomeMoves([])
  {
  }

  ghost predicate CacheAlwaysAgrees(cfg: Config) {
    forall run :: Enables(cfg, Init(cfg), run) ==> CacheAgrees(cfg, After(cfg, Init(cfg), run))
  }

  /** From setup on, in every reachable state, exactly for power-of-two sizes: setup stores the parameter itself
      while the ring's capacity is the rounded-up one. */
  lemma CacheAgreesExactlyForPowersOfTwo(cfg: Config)
    requires cfg.Valid()
    ensures CacheAlwaysAgrees(cfg) <==> IsPow2(cfg.fsize)
  {
    var s := Init(cfg);
    InitInv(cfg);
    RoundUpIsLeast(cfg.fsize);
    EmptyIsValid(cfg.Capacity());
    if IsPow2(cfg.fsize) {
      forall run | Enables(cfg, Init(cfg), run)
        ensures CacheAgrees(cfg, After(cfg, Init(cfg), run))
      {
        CacheRun(cfg, s, run);
        CacheInvAgrees(cfg, After(cfg, s, run));
      }
    } else {
      assert Enables(cfg, Init(cfg), []) && After(cfg, Init(cfg), []) == s;
      assert !CacheAgrees(cfg, s);
    }
  }

  /** For any other size the cache agrees from the first transfer on. */
  lemma CacheAgreesOnceMoved(cfg: Config, run: seq<Event>, i: nat)
    requires cfg.Valid() && Enables(cfg, Init(cfg), run)
    requires i < |OpsOf(cfg, Init(cfg), run)| && OpsOf(cfg, Init(cfg), run)[i] != Silent
    ensures CacheAgrees(cfg, After(cfg, Init(cfg), run))
  {
    InitInv(cfg);
    assert SomeMoves(OpsOf(cfg, Init(cfg), run));
    CacheRun(cfg, Init(cfg), run);
    CacheInvAgrees(cfg, After(cfg, Init(cfg), run));
  }

  /** A read of nothing, from setup on, up to the first half of its reading of the free space. */
  lemma HalfReadRun(cfg: Config, a: Tid) returns (run: seq<Event>, m: State)
    requires cfg.Valid() && cfg.order == WakeThenStore && a in cfg.tasks
    ensures Reaches(cfg, Init(cfg), run, m)
    ensures m.ring == Empty(cfg.Capacity()) && m.avail == cfg.fsize && m.rLock == None && m.wLock == None
    ensures var half := if cfg.counters == InFirst then PubOut(0) else PubIn(0);
      m.tasks == Init(cfg).tasks[a := Task(Read(0), half, 0, [], false)]
  {
    hide Ring.Used, Ring.Free, Ring.At, Ring.StoreAt, Ring.Pushed;
    var s := Init(cfg);
    InitInv(cfg);
    EmptyIsValid(cfg.Capacity());
    run, m := ReadToWakeAlone(cfg, s, a, 0, 0);
    assert m.ring == s.ring;
    run, m := On(cfg, s, run, m, a);
    run, m := On(cfg, s, run, m, a);
    run, m := On(cfg, s, run, m, a);
    assert m.tasks == s.tasks[a := m.tasks[a]];
  }

  lemma BytePassed(n: nat)
    requires IsPow2(n) && 2 <= n <= MAX_CAPACITY
    ensures Empty(n).Free() == n
    ensures var r := Empty(n).Pushed([0]); r.Valid() && r.Used() == 1
    ensures var r := Empty(n).Pushed([0]).AdvanceOut(1);
      && r.Size() == n && r.Valid() && r.Free() == n
      && FreeBetween(n, 0, r.kout) == n + 1 && FreeBetween(n, r.kin, 0) == n - 1
  {
    hide Word, Slot, Ring.Stored, FreeBetween;
    EmptyIsValid(n);
    PushAppends(Empty(n), [0]);
    var r := Empty(n).Pushed([0]);
    assert |r.Contents()| == 1;
    ReleaseDrops(r, 1);
    OneAhead(n);
  }

  lemma OneAhead(n: nat)
    requires 1 <= n <= MAX_CAPACITY
    ensures FreeBetween(n, 0, Word(0 + 1)) == n + 1 && FreeBetween(n, Word(0 + 1), 0) == n - 1
  {
  }

  /** The second half, and the store. */
  lemma OtherHalfAlone(cfg: Config, s: State, t: Tid) returns (run: seq<Event>, s': State)
    requires t in s.tasks && (s.tasks[t].pc.PubOut? || s.tasks[t].pc.PubIn?) && s.ring.Size() > 0
    ensures Reaches(cfg, s, run, s') && s'.ring == s.ring && s'.avail == Seen(s.ring, s.tasks[t].pc)
  {
    hide Ring.Used, Ring.Free, FreeBetween;
    var m;
    run := Nothing(cfg, s);
    run, m := Then(cfg, s, run, s, Event(t, Step));
    run, s' := Then(cfg, s, run, m, Event(t, Step));
  }

  /** While other calls move bytes between its two reads, a task can store a count the ring never had: a read of nothing
      reads one counter; a byte goes in and out again; it reads the other. With `in` first it stores one more than the
      capacity, with `out` first one less than the free space of the empty ring. */
  lemma SplitReadRun(cfg: Config, a: Tid, b: Tid, c: Tid) returns (run: seq<Event>)
    requires cfg.Valid() && cfg.order == WakeThenStore
    requires a in cfg.tasks && b in cfg.tasks && c in cfg.tasks && a != b && b != c && a != c
    ensures Enables(cfg, Init(cfg), run)
    ensures var s := After(cfg, Init(cfg), run);
      && s.ring.Free() == cfg.Capacity()
      && s.avail == if cfg.counters == InFirst then cfg.Capacity() + 1 else cfg.Capacity() - 1
  {
    hide Ring.Valid, Ring.Used, Ring.Free, Ring.At, Ring.StoreAt, Ring.Pushed, FreeBetween;
    var s := Init(cfg);
    var more, m, s';
    RoundUpIsLeast(cfg.fsize);
    RoundUpInRange(cfg.fsize);
    EmptyIsValid(cfg.Capacity());
    BytePassed(cfg.Capacity());
    run, m := HalfReadRun(cfg, a);
    more, s' := TransferInAlone(cfg, m, b, [0], 1);
    assert [0 as Byte][..1] == [0];
    Join(cfg, s, run, m, more, s');
    run, m := run + more, s';
    more, s' := ReadToWakeAlone(cfg, m, c, 1, 1);
    Join(cfg, s, run, m, more, s');
    run, m := run + more, s';
    more, s' := OtherHalfAlone(cfg, m, a);
    Join(cfg, s, run, m, more, s');
    run := run + more;
  }
}
