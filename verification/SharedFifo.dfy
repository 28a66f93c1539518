/**
 The shared FIFO device as an interleaved step system: any number of tasks, one program counter each.
 Every access to shared memory is a step of its own: the lock operations, the two tests of the wait, each of the two
 counters the free space is computed from, each copied byte, the publication of a counter, the wake-up and the store
 of the cached count.
 */
module SharedFifo {
  import opened Words
  import opened Kfifo

  type Tid = nat

  /** Where the reader's wake-up stands: before the store of `avail`, as the driver has it, or after. */
  datatype Order = WakeThenStore | StoreThenWake

  /** Which counter kfifo_avail reads first; the language leaves it open. */
  datatype CounterOrder = InFirst | OutFirst

  datatype Config = Config(fsize: nat, order: Order, counters: CounterOrder, tasks: set<Tid>) {
    /** The module parameters with which kfifo_alloc succeeds. */
    ghost predicate Valid() { 2 <= fsize <= MAX_CAPACITY }

    function Capacity(): nat { RoundUpPow2(fsize) }
  }

  datatype Call = Write(buf: seq<Byte>) | Read(count: nat) {
    function Need(): nat {
      match this
      case Write(buf) => |buf|
      case Read(count) => count
    }
  }

  datatype Pc =
    | Idle
    | Lock             // mutex_lock_interruptible on the transfer lock
    | Try              // wait_event: the test before queueing
    | Enqueue          // wait_event: join the wait queue
    | Test             // wait_event: the test after queueing
    | Sleep            // wait_event: schedule()
    | Measure          // kfifo: read the other side's counter; at most `limit` bytes will move
    | Copy             // kfifo: byte by byte
    | Commit           // kfifo: publish the own counter
    | Wake             // wake_up_interruptible
    | Unlock           // release the transfer lock
    | PubLock          // take `lock`
    | PubRead          // kfifo_avail: the first counter
    | PubOut(kin: nat) // kfifo_avail: `out`, after `in`
    | PubIn(kout: nat) // kfifo_avail: `in`, after `out`
    | PubStore(seen: nat) // avail = ...
    | PubUnlock        // release `lock`
    | Return

  datatype Task = Task(call: Call, pc: Pc, limit: int, done: seq<Byte>, fault: bool) {
    /** What the system call returns at Return: -EFAULT or the number of bytes copied. */
    function Result(): int { if fault then -14 else |done| }
  }

  const RESTING := Task(Read(0), Idle, 0, [], false)

  /** `sent` and `got` record, in lock order, the bytes copied in and out; no step reads them. */
  datatype State = State(
    ring: Ring,
    rLock: Option<Tid>, wLock: Option<Tid>, lock: Option<Tid>,
    avail: int,
    waiting: set<Tid>,
    tasks: map<Tid, Task>,
    sent: seq<Byte>, got: seq<Byte>)
  {
    function Put(t: Tid, k: Task): State { this.(tasks := tasks[t := k]) }

    function TransferLock(c: Call): Option<Tid> { if c.Write? then wLock else rLock }

    function SetTransferLock(c: Call, o: Option<Tid>): State {
      if c.Write? then this.(wLock := o) else this.(rLock := o)
    }

    /** What a transfer may move now: free places for a writer, queued bytes for a reader. */
    function Room(c: Call): int { if c.Write? then ring.Free() else ring.Used() }

    /** On the wait queue, inside schedule(): only a wake-up or a signal moves the task. */
    predicate Asleep(t: Tid) { t in tasks && tasks[t].pc.Sleep? && t in waiting }
  }

  datatype Action = Begin(call: Call) | Step | Fault | Signal

  datatype Event = Event(task: Tid, action: Action)

  /** setup_chardrvs: an empty ring of the rounded-up capacity and `avail` set to the parameter itself. */
  function Init(cfg: Config): State {
    State(Empty(cfg.Capacity()), None, None, None, cfg.fsize, {}, map t | t in cfg.tasks :: RESTING, [], [])
  }

  predicate Enabled(s: State, e: Event) {
    e.task in s.tasks && s.ring.Size() > 0 &&
    var k := s.tasks[e.task];
    match e.action
    case Begin(_) => k.pc.Idle?
    case Fault => k.pc.Copy? && |k.done| < k.limit
    case Signal => k.pc.Lock? || k.pc.Sleep? || (k.pc.Test? && s.avail < k.call.Need())
    case Step =>
      match k.pc
      case Idle => false
      case Lock => s.TransferLock(k.call) == None
      case PubLock => s.lock == None
      case Sleep => e.task !in s.waiting
      case _ => true
  }

  function Apply(cfg: Config, s: State, e: Event): State
    requires Enabled(s, e)
  {
    var t, k := e.task, s.tasks[e.task];
    match e.action
    case Begin(c) => s.Put(t, Task(c, Lock, 0, [], false))
    case Fault => s.Put(t, k.(pc := Commit, fault := true))
    case Signal =>
      if k.pc.Sleep? then s.Put(t, k.(pc := Enqueue))
      // -ERESTARTSYS; out of the wait the task leaves with the writer lock still held
      else s.(waiting := s.waiting - {t}).Put(t, RESTING)
    case Step => Effect(s, t, k).Put(t, NextTask(cfg, s, k))
  }

  /** A signal taken inside the wait: the call returns -ERESTARTSYS and keeps the writer lock. */
  predicate Interrupts(k: Task, a: Action) { a.Signal? && k.pc.Test? }

  predicate CopiesByte(k: Task, a: Action) { a.Step? && k.pc.Copy? && |k.done| < k.limit }

  /** The next byte of a transfer: from the user's buffer, or from the ring past the `out` counter. */
  function NextByte(r: Ring, k: Task): Byte
    requires r.Size() > 0
  {
    match k.call
    case Write(buf) => if |k.done| < |buf| then buf[|k.done|] else 0
    case Read(_) => r.At(r.kout + |k.done|)
  }

  function NextTask(cfg: Config, s: State, k: Task): Task
    requires s.ring.Size() > 0
  {
    if k.pc.Return? then RESTING
    else k.(
      pc := NextPc(cfg, s, k),
      limit := if k.pc.Measure? then Min(k.call.Need(), s.Room(k.call)) else k.limit,
      done := if CopiesByte(k, Step) then k.done + [NextByte(s.ring, k)] else k.done)
  }

  predicate ReadsCount(pc: Pc) { pc.PubOut? || pc.PubIn? || pc.PubStore? }

  /** The count a task has read, or comes to read if it reads the other counter now. */
  function Seen(r: Ring, pc: Pc): nat
    requires ReadsCount(pc)
  {
    match pc
    case PubOut(i) => FreeBetween(r.Size(), i, r.kout)
    case PubIn(o) => FreeBetween(r.Size(), r.kin, o)
    case PubStore(seen) => seen
  }

  /** The control flow of the two system calls. */
  function NextPc(cfg: Config, s: State, k: Task): Pc {
    match k.pc
    case Lock => if k.call.Write? then Try else Measure
    case Try => if s.avail >= k.call.Need() then Measure else Enqueue
    case Enqueue => Test
    case Test => if s.avail >= k.call.Need() then Measure else Sleep
    case Sleep => Enqueue
    case Measure => Copy
    case Copy => if |k.done| < k.limit then k.pc else Commit
    case Commit => if k.call.Read? && cfg.order.WakeThenStore? then Wake else Unlock
    case Wake => if cfg.order.WakeThenStore? then Unlock else Return
    case Unlock => PubLock
    case PubLock => PubRead
    case PubRead => if cfg.counters.InFirst? then PubOut(s.ring.kin) else PubIn(s.ring.kout)
    case PubOut(_) => PubStore(Seen(s.ring, k.pc))
    case PubIn(_) => PubStore(Seen(s.ring, k.pc))
    case PubStore(_) => PubUnlock
    case PubUnlock => if k.call.Read? && cfg.order.StoreThenWake? then Wake else Return
    case Return => Idle
    case Idle => Idle
  }

  /** What a step of task t does to the shared state. */
  function Effect(s: State, t: Tid, k: Task): State
    requires s.ring.Size() > 0
  {
    match k.pc
    case Lock => s.SetTransferLock(k.call, Some(t))
    case Enqueue => s.(waiting := s.waiting + {t})
    case Test => if s.avail >= k.call.Need() then s.(waiting := s.waiting - {t}) else s
    case Copy =>
      if CopiesByte(k, Step) && k.call.Write? then s.(ring := s.ring.StoreAt(|k.done|, NextByte(s.ring, k))) else s
    case Commit =>
      if k.call.Write? then s.(ring := s.ring.AdvanceIn(|k.done|), sent := s.sent + k.done)
      else s.(ring := s.ring.AdvanceOut(|k.done|), got := s.got + k.done)
    case Wake => s.(waiting := {})
    case Unlock => s.SetTransferLock(k.call, None)
    case PubLock => s.(lock := Some(t))
    case PubStore(seen) => s.(avail := seen)
    case PubUnlock => s.(lock := None)
    case _ => s
  }

  // Runs

  predicate Enables(cfg: Config, s: State, run: seq<Event>)
    decreases |run|
  {
    run != [] ==> Enabled(s, run[0]) && Enables(cfg, Apply(cfg, s, run[0]), run[1..])
  }

  function After(cfg: Config, s: State, run: seq<Event>): State
    requires Enables(cfg, s, run)
    decreases |run|
  {
    if run == [] then s else After(cfg, Apply(cfg, s, run[0]), run[1..])
  }

  lemma {:induction false} RunsCompose(cfg: Config, s: State, a: seq<Event>, b: seq<Event>)
    requires Enables(cfg, s, a) && Enables(cfg, After(cfg, s, a), b)
    ensures Enables(cfg, s, a + b) && After(cfg, s, a + b) == After(cfg, After(cfg, s, a), b)
    decreases |a|
  {
    if a == [] {
      assert a + b == b;
    } else {
      assert (a + b)[0] == a[0] && (a + b)[1..] == a[1..] + b;
      RunsCompose(cfg, Apply(cfg, s, a[0]), a[1..], b);
    }
  }

  lemma OneStepRun(cfg: Config, s: State, e: Event)
    requires Enabled(s, e)
    ensures Enables(cfg, s, [e]) && After(cfg, s, [e]) == Apply(cfg, s, e)
  {
    var s' := Apply(cfg, s, e);
    assert [e][1..] == [];
    assert Enables(cfg, s', []);
  }
}
