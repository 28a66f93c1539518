/**
 Two transfer locks are enough: under every interleaving the ring, read through its wrapped counters, is an atomic
 bounded queue, and the bytes copied out followed by the queue are always the bytes copied in.
 */
module SharedFifoQueue {
  import opened Words
  import opened Kfifo
  import opened SharedFifo

  /** Program points at which a task holds its transfer lock, and those at which it holds `lock`. */
  predicate InTransfer(k: Task) {
    match k.pc
    case Try | Enqueue | Test | Sleep | Measure | Copy | Commit | Unlock => true
    case _ => false
  }

  predicate InPublish(k: Task) {
    match k.pc
    case PubRead | PubOut(_) | PubIn(_) | PubStore(_) | PubUnlock => true
    case _ => false
  }

  predicate HoldsTransfer(cfg: Config, k: Task) {
    InTransfer(k) || (k.pc.Wake? && cfg.order == WakeThenStore)
  }

  predicate Waits(k: Task) {
    match k.pc
    case Try | Enqueue | Test | Sleep => true
    case _ => false
  }

  predicate BeforeTransfer(k: Task) { k.pc.Idle? || k.pc.Lock? || k.pc.Measure? || Waits(k) }

  /** A task inside a locked section holds the lock. */
  ghost predicate LocksOk(cfg: Config, s: State, t: Tid)
    requires t in s.tasks
  {
    var k := s.tasks[t];
    && (HoldsTransfer(cfg, k) ==> s.TransferLock(k.call) == Some(t))
    && (InPublish(k) ==> s.lock == Some(t))
  }

  /** Which program points a kind of call passes, and who may be on the wait queue. */
  ghost predicate ShapeOk(s: State, t: Tid)
    requires t in s.tasks
  {
    var k := s.tasks[t];
    && (Waits(k) ==> k.call.Write?)
    && (k.pc.Wake? ==> k.call.Read?)
    && (t in s.waiting ==> Waits(k) && !k.pc.Try?)
  }

  ghost predicate ControlOk(cfg: Config, s: State, t: Tid)
    requires t in s.tasks
  {
    LocksOk(cfg, s, t) && ShapeOk(s, t)
  }

  predicate AfterCopy(k: Task) { !BeforeTransfer(k) && !k.pc.Copy? }

  predicate Copies(k: Task) { k.pc.Copy? || k.pc.Commit? }

  /** How far a task has got with its transfer. */
  predicate KnowsSelf(k: Task) {
    && (BeforeTransfer(k) ==> k.done == [] && !k.fault)
    && |k.done| <= k.call.Need()
    && (k.pc.Copy? ==> !k.fault)
    && (Copies(k) ==> |k.done| <= k.limit <= k.call.Need())
    && (AfterCopy(k) ==> |k.done| <= k.limit && (k.fault <==> |k.done| < k.limit))
    && (k.call.Write? ==> k.done <= k.call.buf)
  }

  /** What a task in its transfer knows of the ring: a writer's bytes are staged and still fit, a reader's bytes are the
      oldest queued ones. */
  ghost predicate KnowsRing(r: Ring, k: Task)
    requires r.Valid()
  {
    Copies(k) ==>
      if k.call.Write? then k.limit <= r.Free() && r.Staged(k.done) else k.limit <= r.Used() && k.done <= r.Contents()
  }

  ghost predicate Knows(r: Ring, k: Task)
    requires r.Valid()
  {
    KnowsSelf(k) && KnowsRing(r, k)
  }

  ghost predicate Inv(cfg: Config, s: State) {
    && cfg.Valid()
    && s.ring.Valid() && s.ring.Size() == cfg.Capacity()
    && s.got + s.ring.Contents() == s.sent
    && s.tasks.Keys == cfg.tasks
    && (forall t :: t in s.tasks ==> ControlOk(cfg, s, t))
    && (forall t :: t in s.tasks ==> Knows(s.ring, s.tasks[t]))
  }

  lemma InitInv(cfg: Config)
    requires cfg.Valid()
    ensures Inv(cfg, Init(cfg))
  {
    RoundUpIsLeast(cfg.fsize);
    RoundUpInRange(cfg.fsize);
    EmptyIsValid(cfg.Capacity());
  }

  // One step: which queue operation it is

  /** The atomic bounded queue the device is meant to be. */
  datatype QueueOp = Silent | Append(task: Tid, bytes: seq<Byte>) | Remove(task: Tid, bytes: seq<Byte>)

  ghost predicate QueueStep(q: seq<Byte>, op: QueueOp, q': seq<Byte>, capacity: nat) {
    match op
    case Silent => q' == q
    case Append(_, p) => q' == q + p && |q'| <= capacity
    case Remove(_, p) => q == p + q'
  }

  predicate Commits(k: Task, a: Action) { a.Step? && k.pc.Commit? }

  /** The counter publications are where the queue operations take effect. */
  function OpOf(s: State, e: Event): QueueOp
    requires Enabled(s, e)
  {
    var k := s.tasks[e.task];
    if !Commits(k, e.action) then Silent
    else if k.call.Write? then Append(e.task, k.done)
    else Remove(e.task, k.done)
  }

  /** Only two kinds of step touch the ring: a writer's byte copy and the two publications. */
  function RingAfter(r: Ring, k: Task, a: Action): Ring
    requires r.Size() > 0
  {
    if Commits(k, a) then if k.call.Write? then r.AdvanceIn(|k.done|) else r.AdvanceOut(|k.done|)
    else if CopiesByte(k, a) && k.call.Write? then r.StoreAt(|k.done|, NextByte(r, k))
    else r
  }

  lemma StepEffect(cfg: Config, s: State, e: Event)
    requires Enabled(s, e)
    ensures var s', k := Apply(cfg, s, e), s.tasks[e.task];
      && e.task in s'.tasks && s'.tasks == s.tasks[e.task := s'.tasks[e.task]]
      && s'.ring == RingAfter(s.ring, k, e.action)
      && s'.sent == s.sent + (if Commits(k, e.action) && k.call.Write? then k.done else [])
      && s'.got == s.got + (if Commits(k, e.action) && k.call.Read? then k.done else [])
  {
    hide Ring.Free, Ring.Used, Ring.At, Ring.StoreAt, Ring.AdvanceIn, Ring.AdvanceOut, NextByte;
    assert s.sent + [] == s.sent && s.got + [] == s.got;
  }

  /** The ring after a step still is a ring, and its contents moved by the step's queue operation. */
  lemma RingStep(r: Ring, k: Task, a: Action)
    requires r.Valid() && Knows(r, k)
    ensures var r' := RingAfter(r, k, a);
      && r'.Valid() && r'.Size() == r.Size()
      && (!Commits(k, a) ==> r'.Contents() == r.Contents() && r'.Free() == r.Free())
      && (Commits(k, a) && k.call.Write? ==> r'.Contents() == r.Contents() + k.done)
      && (Commits(k, a) && k.call.Read? ==> r.Contents() == k.done + r'.Contents())
  {
    hide Ring.Used, Ring.At, NextByte;
    if Commits(k, a) {
      if k.call.Write? {
        PublishAppends(r, k.done);
      } else {
        ReleaseDrops(r, |k.done|);
      }
    } else if CopiesByte(k, a) && k.call.Write? {
      StoreKeeps(r, k.done, NextByte(r, k));
    }
  }

  // The mover keeps its knowledge

  lemma ByteStepKnows(cfg: Config, s: State, e: Event)
    requires Enabled(s, e) && s.ring.Valid() && Knows(s.ring, s.tasks[e.task])
    requires CopiesByte(s.tasks[e.task], e.action) && Apply(cfg, s, e).ring.Valid()
    ensures Knows(Apply(cfg, s, e).ring, Apply(cfg, s, e).tasks[e.task])
  {
    hide Ring.Used;
    var k := s.tasks[e.task];
    var b := NextByte(s.ring, k);
    if k.call.Write? {
      StoreKeeps(s.ring, k.done, b);
      assert k.done + [b] <= k.call.buf;
    } else {
      assert s.ring.Contents()[|k.done|] == b;
      assert k.done + [b] <= s.ring.Contents();
    }
  }

  lemma MeasureKnows(cfg: Config, s: State, e: Event)
    requires Enabled(s, e) && s.ring.Valid() && Knows(s.ring, s.tasks[e.task])
    requires e.action.Step? && s.tasks[e.task].pc.Measure?
    ensures var s' := Apply(cfg, s, e); s'.ring == s.ring && Knows(s.ring, s'.tasks[e.task])
  {
    hide Ring.Used, Ring.At;
  }

  lemma PlainStepKnows(cfg: Config, s: State, e: Event)
    requires Enabled(s, e) && s.ring.Valid() && Knows(s.ring, s.tasks[e.task])
    requires !CopiesByte(s.tasks[e.task], e.action) && !(e.action.Step? && s.tasks[e.task].pc.Measure?)
    requires Apply(cfg, s, e).ring.Valid()
    ensures Knows(Apply(cfg, s, e).ring, Apply(cfg, s, e).tasks[e.task])
  {
    hide Apply, Ring.Used, Ring.At, Ring.Free, Ring.Valid, Ring.AdvanceIn, Ring.AdvanceOut, NextByte, KnowsSelf;
    hide Copies;
    StepEffect(cfg, s, e);
    PlainStepSelf(cfg, s, e);
  }

  /** A step that copies nothing and measures nothing: no task comes to its copy by it, and what is left of the copy is
      as it was. */
  lemma PlainStepSelf(cfg: Config, s: State, e: Event)
    requires Enabled(s, e) && KnowsSelf(s.tasks[e.task])
    requires !CopiesByte(s.tasks[e.task], e.action) && !(e.action.Step? && s.tasks[e.task].pc.Measure?)
    ensures var k, k' := s.tasks[e.task], Apply(cfg, s, e).tasks[e.task];
      && KnowsSelf(k')
      && (Copies(k') ==> Copies(k) && !Commits(k, e.action))
      && (Copies(k') ==> k'.call == k.call && k'.limit == k.limit && k'.done == k.done)
  {
    hide Ring.Used, Ring.At, Ring.Free, NextByte, Effect, Seen;
  }

  /** Everybody else keeps theirs: the transfer locks keep a second writer off the staged bytes and a second reader
      off the `out` counter, and what the other side publishes only adds. */
  lemma OtherKnows(r: Ring, k: Task, a: Action, o: Task)
    requires r.Valid() && Knows(r, k) && Knows(r, o) && RingAfter(r, k, a).Valid()
    requires Copies(k) && Copies(o) ==> k.call.Write? != o.call.Write?
    ensures Knows(RingAfter(r, k, a), o)
  {
    hide Ring.Used, NextByte;
    RingStep(r, k, a);
  }

  lemma DataStep(cfg: Config, s: State, e: Event)
    requires Inv(cfg, s) && Enabled(s, e)
    ensures var s' := Apply(cfg, s, e);
      && s'.ring.Valid() && s'.ring.Size() == s.ring.Size()
      && s'.got + s'.ring.Contents() == s'.sent && s'.tasks.Keys == s.tasks.Keys
      && QueueStep(s.ring.Contents(), OpOf(s, e), s'.ring.Contents(), s.ring.Size())
      && forall t :: t in s'.tasks ==> Knows(s'.ring, s'.tasks[t])
  {
    hide Apply, Ring.Used, Ring.At, Ring.AdvanceIn, Ring.AdvanceOut, Ring.StoreAt, Knows, RingAfter;
    var k, s' := s.tasks[e.task], Apply(cfg, s, e);
    StepEffect(cfg, s, e);
    RingStep(s.ring, k, e.action);
    forall t | t in s'.tasks
      ensures Knows(s'.ring, s'.tasks[t])
    {
      if t != e.task {
        assert ControlOk(cfg, s, t) && ControlOk(cfg, s, e.task);
        OtherKnows(s.ring, k, e.action, s.tasks[t]);
      } else if CopiesByte(k, e.action) {
        ByteStepKnows(cfg, s, e);
      } else if e.action.Step? && k.pc.Measure? {
        MeasureKnows(cfg, s, e);
      } else {
        PlainStepKnows(cfg, s, e);
      }
    }
  }

  // Locks and the wait queue

  /** `lock` and `avail` change only at three program points, none of which touches the ring. */
  lemma LockStep(cfg: Config, s: State, e: Event)
    requires Enabled(s, e)
    ensures var k, s' := s.tasks[e.task], Apply(cfg, s, e);
      && s'.lock == (if e.action.Step? && k.pc.PubLock? then Some(e.task)
                     else if e.action.Step? && k.pc.PubUnlock? then None else s.lock)
      && s'.avail == (if e.action.Step? && k.pc.PubStore? then k.pc.seen else s.avail)
      && (InPublish(k) ==> s'.ring == s.ring)
  {
    hide Ring.Used, Ring.Free, Ring.At, Ring.AdvanceIn, Ring.AdvanceOut, Ring.StoreAt, FreeBetween;
    hide NextByte, NextTask;
  }

  /** So do the transfer locks. */
  lemma TransferLockStep(cfg: Config, s: State, e: Event, c: Call)
    requires Enabled(s, e)
    ensures var k, s' := s.tasks[e.task], Apply(cfg, s, e);
      s'.TransferLock(c)
      == if e.action.Step? && k.pc.Lock? && k.call.Write? == c.Write? then Some(e.task)
         else if e.action.Step? && k.pc.Unlock? && k.call.Write? == c.Write? then None
         else s.TransferLock(c)
  {
    hide Ring.Used, Ring.Free, Ring.At, Ring.AdvanceIn, Ring.AdvanceOut, Ring.StoreAt, NextByte, NextTask;
  }

  /** The wait queue is joined before the second test, and left by passing it, by a signal or by a wake-up of all. */
  lemma WaitingStep(cfg: Config, s: State, e: Event)
    requires Enabled(s, e)
    ensures var k, a := s.tasks[e.task], e.action;
      Apply(cfg, s, e).waiting
      == if a.Step? && k.pc.Wake? then {}
         else if a.Step? && k.pc.Enqueue? then s.waiting + {e.task}
         else if (a.Step? && k.pc.Test? && s.avail >= k.call.Need()) || (a.Signal? && !k.pc.Sleep?)
         then s.waiting - {e.task}
         else s.waiting
  {
    hide Ring.Used, Ring.Free, Ring.At, Ring.AdvanceIn, Ring.AdvanceOut, Ring.StoreAt, NextByte, NextTask;
  }

  /** The section under the transfer lock is entered by taking the lock and, but for an interrupted wait, left by
      releasing it. */
  lemma HoldsStep(cfg: Config, s: State, e: Event)
    requires Enabled(s, e)
    ensures var k, k', a := s.tasks[e.task], Apply(cfg, s, e).tasks[e.task], e.action;
      && (HoldsTransfer(cfg, k') <==>
            (a.Step? && k.pc.Lock?) || (HoldsTransfer(cfg, k) && !(a.Step? && k.pc.Unlock?) && !Interrupts(k, a)))
      && (HoldsTransfer(cfg, k') ==> k'.call == k.call)
  {
    hide Ring.Used, Ring.Free, Ring.At, NextByte, Effect, Seen;
  }

  /** Likewise for `lock`. */
  lemma PublishStep(cfg: Config, s: State, e: Event)
    requires Enabled(s, e)
    ensures var k, k', a := s.tasks[e.task], Apply(cfg, s, e).tasks[e.task], e.action;
      InPublish(k') <==> (a.Step? && k.pc.PubLock?) || (InPublish(k) && !(a.Step? && k.pc.PubUnlock?))
  {
    hide Ring.Used, Ring.Free, Ring.At, NextByte, Effect, Seen;
  }

  lemma MoverLocks(cfg: Config, s: State, e: Event)
    requires Enabled(s, e) && ControlOk(cfg, s, e.task)
    ensures e.task in Apply(cfg, s, e).tasks && LocksOk(cfg, Apply(cfg, s, e), e.task)
  {
    hide Apply, HoldsTransfer, InPublish, ShapeOk, RingAfter;
    StepEffect(cfg, s, e);
    LockStep(cfg, s, e);
    TransferLockStep(cfg, s, e, s.tasks[e.task].call);
    HoldsStep(cfg, s, e);
    PublishStep(cfg, s, e);
    UnlockHolds(cfg, s.tasks[e.task]);
  }

  lemma UnlockHolds(cfg: Config, k: Task)
    ensures k.pc.Unlock? ==> HoldsTransfer(cfg, k)
    ensures k.pc.PubUnlock? ==> InPublish(k)
  {
  }

  lemma MoverKind(cfg: Config, s: State, e: Event)
    requires Enabled(s, e) && ShapeOk(s, e.task)
    ensures var k' := Apply(cfg, s, e).tasks[e.task];
      (Waits(k') ==> k'.call.Write?) && (k'.pc.Wake? ==> k'.call.Read?)
  {
    hide Ring.Used, Ring.Free, Ring.At, NextByte, Effect, Seen;
  }

  lemma MoverQueued(cfg: Config, s: State, e: Event)
    requires Enabled(s, e) && ShapeOk(s, e.task)
    ensures var s' := Apply(cfg, s, e); var k' := s'.tasks[e.task];
      e.task in s'.waiting ==> Waits(k') && !k'.pc.Try?
  {
    hide Ring.Used, Ring.Free, Ring.At, NextByte, Effect, Seen;
    WaitingStep(cfg, s, e);
  }

  lemma MoverShape(cfg: Config, s: State, e: Event)
    requires Enabled(s, e) && ShapeOk(s, e.task)
    ensures e.task in Apply(cfg, s, e).tasks && ShapeOk(Apply(cfg, s, e), e.task)
  {
    hide Apply, Waits, RingAfter;
    StepEffect(cfg, s, e);
    MoverKind(cfg, s, e);
    MoverQueued(cfg, s, e);
  }

  /** A lock held by another task is not touched. */
  lemma OtherControl(cfg: Config, s: State, e: Event, t: Tid)
    requires Enabled(s, e) && t in s.tasks && t != e.task && ControlOk(cfg, s, t) && ControlOk(cfg, s, e.task)
    ensures t in Apply(cfg, s, e).tasks && ControlOk(cfg, Apply(cfg, s, e), t)
  {
    hide Ring.Used, Ring.Free, Ring.At, Ring.AdvanceIn, Ring.AdvanceOut, Ring.StoreAt, NextByte, Waits;
    StepEffect(cfg, s, e);
  }

  lemma StepInv(cfg: Config, s: State, e: Event)
    requires Inv(cfg, s) && Enabled(s, e)
    ensures Inv(cfg, Apply(cfg, s, e))
  {
    hide Apply, Knows, LocksOk, ShapeOk, Ring.Used;
    DataStep(cfg, s, e);
    var s' := Apply(cfg, s, e);
    forall t | t in s'.tasks
      ensures ControlOk(cfg, s', t)
    {
      if t == e.task {
        MoverLocks(cfg, s, e);
        MoverShape(cfg, s, e);
      } else {
        OtherControl(cfg, s, e, t);
      }
    }
  }

  // Whole runs

  lemma {:induction false} RunInv(cfg: Config, s: State, run: seq<Event>)
    requires Inv(cfg, s) && Enables(cfg, s, run)
    ensures Inv(cfg, After(cfg, s, run))
    decreases |run|
  {
    if run != [] {
      StepInv(cfg, s, run[0]);
      RunInv(cfg, Apply(cfg, s, run[0]), run[1..]);
    }
  }

  /** The queue operations of a run, in the order of the publications. */
  function OpsOf(cfg: Config, s: State, run: seq<Event>): (ops: seq<QueueOp>)
    requires Enables(cfg, s, run)
    ensures |ops| == |run|
    decreases |run|
  {
    if run == [] then [] else [OpOf(s, run[0])] + OpsOf(cfg, Apply(cfg, s, run[0]), run[1..])
  }

  /** The queue executes the operations one after the other and ends as q'. */
  ghost predicate QueueRuns(q: seq<Byte>, ops: seq<QueueOp>, q': seq<Byte>, capacity: nat)
    decreases |ops|
  {
    if ops == [] then q' == q
    else exists m: seq<Byte> :: QueueStep(q, ops[0], m, capacity) && QueueRuns(m, ops[1..], q', capacity)
  }

  /** Every interleaving of any number of readers and writers is a run of the atomic bounded queue. */
  lemma {:induction false} RefinesBoundedQueue(cfg: Config, s: State, run: seq<Event>)
    requires Inv(cfg, s) && Enables(cfg, s, run)
    ensures Inv(cfg, After(cfg, s, run))
    ensures QueueRuns(s.ring.Contents(), OpsOf(cfg, s, run), After(cfg, s, run).ring.Contents(), cfg.Capacity())
    decreases |run|
  {
    if run != [] {
      var s' := Apply(cfg, s, run[0]);
      StepInv(cfg, s, run[0]);
      DataStep(cfg, s, run[0]);
      RefinesBoundedQueue(cfg, s', run[1..]);
      assert OpsOf(cfg, s, run)[1..] == OpsOf(cfg, s', run[1..]);
    }
  }

  /** The bytes that a list of operations appends, or removes, in order. */
  function Appended(ops: seq<QueueOp>): seq<Byte> {
    if ops == [] then [] else (if ops[0].Append? then ops[0].bytes else []) + Appended(ops[1..])
  }

  function Removed(ops: seq<QueueOp>): seq<Byte> {
    if ops == [] then [] else (if ops[0].Remove? then ops[0].bytes else []) + Removed(ops[1..])
  }

  /** The ledgers are the bytes of the queue operations, in their order. */
  lemma {:induction false} LedgersAreTheOperations(cfg: Config, s: State, run: seq<Event>)
    requires Enables(cfg, s, run)
    ensures After(cfg, s, run).sent == s.sent + Appended(OpsOf(cfg, s, run))
    ensures After(cfg, s, run).got == s.got + Removed(OpsOf(cfg, s, run))
    decreases |run|
  {
    hide Apply, RingAfter;
    if run != [] {
      var s' := Apply(cfg, s, run[0]);
      StepEffect(cfg, s, run[0]);
      LedgersAreTheOperations(cfg, s', run[1..]);
      var ops := OpsOf(cfg, s, run);
      assert ops[0] == OpOf(s, run[0]) && ops[1..] == OpsOf(cfg, s', run[1..]);
      var k := s.tasks[run[0].task];
      assert k.call.Write? || k.call.Read?;
      var i := if ops[0].Append? then ops[0].bytes else [];
      var o := if ops[0].Remove? then ops[0].bytes else [];
      assert s'.sent == s.sent + i && s'.got == s.got + o;
      assert s.sent + (i + Appended(ops[1..])) == (s.sent + i) + Appended(ops[1..]);
      assert s.got + (o + Removed(ops[1..])) == (s.got + o) + Removed(ops[1..]);
    }
  }

  /** From setup on: what came out, followed by what is queued, is what went in, and the queue fits. */
  lemma CopiedOutThenQueuedIsCopiedIn(cfg: Config, run: seq<Event>)
    requires cfg.Valid() && Enables(cfg, Init(cfg), run)
    ensures var s := After(cfg, Init(cfg), run);
      s.ring.Valid() && s.got + s.ring.Contents() == s.sent && |s.ring.Contents()| <= cfg.Capacity()
  {
    InitInv(cfg);
    RunInv(cfg, Init(cfg), run);
  }

  /** What a publication appends or removes is what the call asked for: a prefix of the writer's buffer or the oldest
      queued bytes, all of the measured room unless the copy faulted. */
  lemma OpIsTheCallsTransfer(cfg: Config, s: State, e: Event)
    requires Inv(cfg, s) && Enabled(s, e) && OpOf(s, e) != Silent
    ensures var k, p := s.tasks[e.task], OpOf(s, e).bytes;
      && (k.call.Write? ==> p <= k.call.buf)
      && (k.call.Read? ==> p <= s.ring.Contents() && |p| <= k.call.count)
      && (!k.fault ==> |p| == k.limit)
  {
    assert Knows(s.ring, s.tasks[e.task]);
  }

  /** Past its publication. */
  predicate Moved(k: Task) { AfterCopy(k) && !k.pc.Commit? }

  function TransferOf(t: Tid, k: Task): QueueOp {
    if k.call.Write? then Append(t, k.done) else Remove(t, k.done)
  }

  /** The last operation of task t in a list, or `was` if there is none. */
  function LastOp(ops: seq<QueueOp>, t: Tid, was: QueueOp): QueueOp {
    if ops == [] then was
    else LastOp(ops[1..], t, if ops[0] != Silent && ops[0].task == t then ops[0] else was)
  }

  /** A call publishes once, and afterwards remembers what it published. */
  lemma MovedStep(cfg: Config, s: State, e: Event)
    requires Enabled(s, e)
    ensures var k, k' := s.tasks[e.task], Apply(cfg, s, e).tasks[e.task];
      && (OpOf(s, e) != Silent ==> OpOf(s, e).task == e.task)
      && (Moved(k') ==> if OpOf(s, e) != Silent then OpOf(s, e) == TransferOf(e.task, k')
                        else Moved(k) && TransferOf(e.task, k') == TransferOf(e.task, k))
  {
    hide Ring.Used, Ring.Free, Ring.At, NextByte, Effect, Seen;
  }

  lemma {:induction false} MovedRun(cfg: Config, s: State, run: seq<Event>, t: Tid, was: QueueOp)
    requires Enables(cfg, s, run) && t in s.tasks
    requires Moved(s.tasks[t]) ==> was == TransferOf(t, s.tasks[t])
    ensures t in After(cfg, s, run).tasks
    ensures var k := After(cfg, s, run).tasks[t];
      Moved(k) ==> LastOp(OpsOf(cfg, s, run), t, was) == TransferOf(t, k)
    decreases |run|
  {
    hide Apply, Moved, TransferOf, RingAfter;
    if run != [] {
      var e, s' := run[0], Apply(cfg, s, run[0]);
      StepEffect(cfg, s, e);
      MovedStep(cfg, s, e);
      var op := OpOf(s, e);
      var ops := OpsOf(cfg, s, run);
      assert ops[0] == op && ops[1..] == OpsOf(cfg, s', run[1..]);
      MovedRun(cfg, s', run[1..], t, if op != Silent && op.task == t then op else was);
    }
  }

  /** Whether the call that task t is in has faulted, told from the events of a run. */
  function Faulted(run: seq<Event>, t: Tid): bool {
    if run == [] then false
    else
      var e := run[|run| - 1];
      if e.task == t && e.action.Begin? then false
      else (e.task == t && e.action.Fault?) || Faulted(run[..|run| - 1], t)
  }

  lemma FaultStep(cfg: Config, s: State, e: Event)
    requires Enabled(s, e)
    ensures var k, k' := s.tasks[e.task], Apply(cfg, s, e).tasks[e.task];
      k'.pc.Idle? || (k'.fault <==> e.action.Fault? || (k.fault && !e.action.Begin?))
  {
    hide Ring.Used, Ring.Free, Ring.At, NextByte, Effect, Seen;
  }

  lemma IdleStep(cfg: Config, s: State, e: Event)
    requires Enabled(s, e) && s.tasks[e.task].pc.Idle?
    ensures e.action.Begin?
  {
  }

  lemma {:induction false} SplitRun(cfg: Config, s: State, run: seq<Event>)
    requires run != [] && Enables(cfg, s, run)
    ensures var before, e := run[..|run| - 1], run[|run| - 1];
      && Enables(cfg, s, before) && Enabled(After(cfg, s, before), e)
      && After(cfg, s, run) == Apply(cfg, After(cfg, s, before), e)
    decreases |run|
  {
    hide Enabled, Apply;
    var before := run[..|run| - 1];
    if |run| > 1 {
      SplitRun(cfg, Apply(cfg, s, run[0]), run[1..]);
      assert run[1..][..|run[1..]| - 1] == before[1..];
    } else {
      assert run[1..] == [];
    }
  }

  /** A task not at rest remembers its fault and no other. */
  lemma {:induction false} FaultRun(cfg: Config, run: seq<Event>, t: Tid)
    requires Enables(cfg, Init(cfg), run) && t in cfg.tasks
    ensures t in After(cfg, Init(cfg), run).tasks
    ensures var k := After(cfg, Init(cfg), run).tasks[t];
      !k.pc.Idle? ==> (k.fault <==> Faulted(run, t))
    decreases |run|
  {
    hide Enabled, Apply, RingAfter;
    if run != [] {
      var before, e := run[..|run| - 1], run[|run| - 1];
      SplitRun(cfg, Init(cfg), run);
      FaultRun(cfg, before, t);
      var s := After(cfg, Init(cfg), before);
      StepEffect(cfg, s, e);
      if e.task == t {
        FaultStep(cfg, s, e);
        if s.tasks[t].pc.Idle? {
          IdleStep(cfg, s, e);
        }
      }
    }
  }

  /** A call that returns r has moved exactly these bytes, its task's last operation on the queue; after a fault r is
      -EFAULT and they are fewer than it measured, else r is their number and they are all it measured. */
  ghost predicate ReturnsFor(run: seq<Event>, t: Tid, r: int, limit: int, moved: seq<Byte>) {
    if Faulted(run, t) then r == -14 && |moved| < limit else r == |moved| == limit
  }

  lemma ReturnTells(cfg: Config, run: seq<Event>, t: Tid)
    requires cfg.Valid() && Enables(cfg, Init(cfg), run) && t in cfg.tasks
    requires t in After(cfg, Init(cfg), run).tasks && After(cfg, Init(cfg), run).tasks[t].pc.Return?
    ensures var k := After(cfg, Init(cfg), run).tasks[t];
      && ReturnsFor(run, t, k.Result(), k.limit, k.done)
      && LastOp(OpsOf(cfg, Init(cfg), run), t, Silent) == TransferOf(t, k)
      && (k.call.Write? ==> k.done <= k.call.buf)
      && |k.done| <= k.call.Need()
  {
    hide Ring.Used, Ring.Free, Ring.Valid, Ring.At, ControlOk, Faulted, LastOp, OpsOf, Enabled, Apply;
    InitInv(cfg);
    RunInv(cfg, Init(cfg), run);
    var s := After(cfg, Init(cfg), run);
    assert Knows(s.ring, s.tasks[t]);
    MovedRun(cfg, Init(cfg), run, t, Silent);
    FaultRun(cfg, run, t);
  }

  /** A write returns the number of bytes, the first of its buffer, that it has appended to the queue, all the room it
      measured; or, exactly after a fault, -EFAULT with fewer of them appended. */
  lemma WriterReturnsItsPrefix(cfg: Config, run: seq<Event>, t: Tid)
    requires cfg.Valid() && Enables(cfg, Init(cfg), run) && t in cfg.tasks
    requires var s := After(cfg, Init(cfg), run);
      t in s.tasks && s.tasks[t].pc.Return? && s.tasks[t].call.Write?
    ensures var k := After(cfg, Init(cfg), run).tasks[t];
      exists p: seq<Byte> :: p <= k.call.buf && ReturnsFor(run, t, k.Result(), k.limit, p)
                             && LastOp(OpsOf(cfg, Init(cfg), run), t, Silent) == Append(t, p)
  {
    hide Enables, Apply, After, LastOp, OpsOf, ReturnsFor;
    ReturnTells(cfg, run, t);
    assert After(cfg, Init(cfg), run).tasks[t].done <= After(cfg, Init(cfg), run).tasks[t].call.buf;
  }

  /** A read returns the number of bytes that it has removed from the queue and handed over, at most what it asked for;
      or, exactly after a fault, -EFAULT. */
  lemma ReaderReturnsWhatItRemoved(cfg: Config, run: seq<Event>, t: Tid)
    requires cfg.Valid() && Enables(cfg, Init(cfg), run) && t in cfg.tasks
    requires var s := After(cfg, Init(cfg), run);
      t in s.tasks && s.tasks[t].pc.Return? && s.tasks[t].call.Read?
    ensures var k := After(cfg, Init(cfg), run).tasks[t];
      exists p: seq<Byte> :: p == k.done && |p| <= k.call.count && ReturnsFor(run, t, k.Result(), k.limit, p)
                             && LastOp(OpsOf(cfg, Init(cfg), run), t, Silent) == Remove(t, p)
  {
    hide Enables, Apply, After, LastOp, OpsOf, ReturnsFor;
    ReturnTells(cfg, run, t);
  }

  /** At no time are two writers, or two readers, inside their transfers, nor two calls inside the publication. */
  lemma TransfersExclude(cfg: Config, run: seq<Event>, t: Tid, u: Tid)
    requires cfg.Valid() && Enables(cfg, Init(cfg), run) && t != u
    requires var s := After(cfg, Init(cfg), run); t in s.tasks && u in s.tasks
    ensures var k, o := After(cfg, Init(cfg), run).tasks[t], After(cfg, Init(cfg), run).tasks[u];
      && !(InTransfer(k) && InTransfer(o) && k.call.Write? == o.call.Write?)
      && !(InPublish(k) && InPublish(o))
  {
    InitInv(cfg);
    RunInv(cfg, Init(cfg), run);
    var s := After(cfg, Init(cfg), run);
    assert ControlOk(cfg, s, t) && ControlOk(cfg, s, u);
  }
}
