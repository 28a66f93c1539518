/**
 Every call gets somewhere. Left without new calls and signals the device comes to a halt within a number of steps that
 is known in advance, whatever the scheduler does; where it halts, `SharedFifoProgress` says.
 */
module SharedFifoDrain {
  import opened Words
  import opened Kfifo
  import opened SharedFifo
  import opened SharedFifoQueue
  import opened SharedFifoWakeups
  import opened SharedFifoProgress

  /** How many steps task t can take at most, as long as nobody wakes it once it has gone to sleep. */
  function Ahead(order: Order, k: Task, queued: bool): nat {
    match k.pc
    case Idle => 0
    case Return => 1
    case Wake => if order.WakeThenStore? then 9 else 2
    case PubUnlock => 3
    case PubStore(_) => 4
    case PubOut(_) => 5
    case PubIn(_) => 5
    case PubRead => 6
    case PubLock => 7
    case Unlock => 8
    case Commit => 10
    case Copy => 11 + Max(k.limit - |k.done|, 0)
    case Measure => 12 + k.call.Need()
    case Sleep => (if queued then 13 else 16) + k.call.Need()
    case Test => (if queued then 14 else 17) + k.call.Need()
    case Enqueue => 15 + k.call.Need()
    case Try => 16 + k.call.Need()
    case Lock => 18 + k.call.Need()
  }

  /** A reader that is still to wake the queue. */
  predicate OwesWake(order: Order, k: Task) {
    k.call.Read? && match k.pc
                    case Idle | Return => false
                    case Unlock | PubLock | PubRead | PubOut(_) | PubIn(_) | PubStore(_) | PubUnlock =>
                      order.StoreThenWake?
                    case _ => true
  }

  /** A wake-up gives each of n tasks at most three more steps: out of schedule(), into the queue, the test. */
  function Work(order: Order, k: Task, queued: bool, n: nat): nat {
    Ahead(order, k, queued) + if OwesWake(order, k) then 3 * n else 0
  }

  /** The work of the tasks numbered below m, of n in all. */
  function WorkBelow(cfg: Config, s: State, m: nat, n: nat): nat {
    if m == 0 then 0
    else
      var t := m - 1;
      WorkBelow(cfg, s, t, n) + if t in s.tasks then Work(cfg.order, s.tasks[t], t in s.waiting, n) else 0
  }

  function TotalWork(cfg: Config, s: State, n: nat): nat { WorkBelow(cfg, s, n, n) }

  predicate AllBelow(ts: set<Tid>, n: nat) { forall t :: t in ts ==> t < n }

  predicate OnlySteps(run: seq<Event>) {
    forall i :: 0 <= i < |run| ==> run[i].action.Step? || run[i].action.Fault?
  }

  predicate Wakes(k: Task, a: Action) { a.Step? && k.pc.Wake? }

  /** Taking a step leaves one less. */
  lemma MoverAhead(cfg: Config, s: State, e: Event)
    requires Enabled(s, e) && (e.action.Step? || e.action.Fault?) && ShapeOk(s, e.task)
    ensures var s' := Apply(cfg, s, e);
      Ahead(cfg.order, s'.tasks[e.task], e.task in s'.waiting)
      < Ahead(cfg.order, s.tasks[e.task], e.task in s.waiting)
  {
    hide Ring.Used, Ring.Free, Ring.At, NextByte, Word, Slot, Seen, Effect;
    WaitingStep(cfg, s, e);
  }

  /** Only the wake-up itself pays off a wake-up, and no step incurs one. */
  lemma MoverOwes(cfg: Config, s: State, e: Event)
    requires Enabled(s, e) && (e.action.Step? || e.action.Fault?) && ShapeOk(s, e.task)
    ensures var k, k' := s.tasks[e.task], Apply(cfg, s, e).tasks[e.task];
      && (OwesWake(cfg.order, k') ==> OwesWake(cfg.order, k))
      && (Wakes(k, e.action) ==> OwesWake(cfg.order, k) && !OwesWake(cfg.order, k'))
  {
    hide Ring.Used, Ring.Free, Ring.At, Ring.AdvanceIn, Ring.AdvanceOut, Ring.StoreAt, NextByte, Word, Slot, Seen;
    hide Effect;
  }

  /** The mover's work goes down, for a wake-up by what it gives to the others. */
  lemma MoverWork(cfg: Config, s: State, e: Event, n: nat)
    requires Inv(cfg, s) && Enabled(s, e) && (e.action.Step? || e.action.Fault?)
    ensures var k, k', s' := s.tasks[e.task], Apply(cfg, s, e).tasks[e.task], Apply(cfg, s, e);
      Work(cfg.order, k', e.task in s'.waiting, n) + (if Wakes(k, e.action) then 3 * n else 0)
      < Work(cfg.order, k, e.task in s.waiting, n)
  {
    hide Apply, Knows, LocksOk, ShapeOk, OwesWake, Ahead, Ring.Valid;
    assert ControlOk(cfg, s, e.task);
    MoverAhead(cfg, s, e);
    MoverOwes(cfg, s, e);
  }

  /** Nobody else's goes up but by a wake-up. */
  lemma OtherWork(cfg: Config, s: State, e: Event, t: Tid, n: nat)
    requires Enabled(s, e) && (e.action.Step? || e.action.Fault?) && t in s.tasks && t != e.task
    ensures var k, s' := s.tasks[e.task], Apply(cfg, s, e);
      && t in s'.tasks
      && Work(cfg.order, s'.tasks[t], t in s'.waiting, n)
         <= Work(cfg.order, s.tasks[t], t in s.waiting, n) + if Wakes(k, e.action) then 3 else 0
  {
    hide Ring.Used, Ring.Free, Ring.Valid, Ring.At, Ring.AdvanceIn, Ring.AdvanceOut, Ring.StoreAt, NextByte;
    StepEffect(cfg, s, e);
  }

  lemma {:induction false} WorkBelowStep(cfg: Config, s: State, e: Event, m: nat, n: nat)
    requires Inv(cfg, s) && Enabled(s, e) && (e.action.Step? || e.action.Fault?)
    ensures var wakes := Wakes(s.tasks[e.task], e.action);
      WorkBelow(cfg, Apply(cfg, s, e), m, n) + (if e.task < m then 1 + if wakes then 3 * n else 0 else 0)
      <= WorkBelow(cfg, s, m, n) + if wakes then 3 * m else 0
    decreases m
  {
    hide Inv, Apply, Work, RingAfter;
    if m > 0 {
      var t := m - 1;
      WorkBelowStep(cfg, s, e, t, n);
      if t == e.task {
        MoverWork(cfg, s, e, n);
      } else if t in s.tasks {
        OtherWork(cfg, s, e, t, n);
      }
      StepEffect(cfg, s, e);
    }
  }

  lemma TotalWorkStep(cfg: Config, s: State, e: Event, n: nat)
    requires Inv(cfg, s) && Enabled(s, e) && (e.action.Step? || e.action.Fault?) && AllBelow(s.tasks.Keys, n)
    ensures TotalWork(cfg, Apply(cfg, s, e), n) < TotalWork(cfg, s, n)
    ensures AllBelow(Apply(cfg, s, e).tasks.Keys, n)
  {
    hide Inv, Apply, WorkBelow;
    StepEffect(cfg, s, e);
    WorkBelowStep(cfg, s, e, n, n);
  }

  /** No run of steps, faults included, is longer than the work there was. */
  lemma {:induction false} StepsAreBounded(cfg: Config, s: State, run: seq<Event>, n: nat)
    requires Inv(cfg, s) && AllBelow(s.tasks.Keys, n) && Enables(cfg, s, run) && OnlySteps(run)
    ensures |run| + TotalWork(cfg, After(cfg, s, run), n) <= TotalWork(cfg, s, n)
    decreases |run|
  {
    hide Inv, Enabled, Apply, TotalWork, AllBelow;
    if run != [] {
      var s' := Apply(cfg, s, run[0]);
      assert run[0].action.Step? || run[0].action.Fault?;
      StepInv(cfg, s, run[0]);
      TotalWorkStep(cfg, s, run[0], n);
      StepsAreBounded(cfg, s', run[1..], n);
    }
  }

  /** From every reachable state the calls underway can be run to a halt, and running them on in any way leads there. */
  lemma {:induction false} RunToHalt(cfg: Config, s: State, n: nat) returns (run: seq<Event>)
    requires Inv(cfg, s) && AllBelow(s.tasks.Keys, n)
    ensures Enables(cfg, s, run) && OnlySteps(run) && Halted(After(cfg, s, run))
    decreases TotalWork(cfg, s, n)
  {
    hide Inv, Enabled, Apply, TotalWork, AllBelow;
    run := [];
    if !Halted(s) {
      var t :| t in s.tasks && Enabled(s, Event(t, Step));
      var s' := Apply(cfg, s, Event(t, Step));
      StepInv(cfg, s, Event(t, Step));
      TotalWorkStep(cfg, s, Event(t, Step), n);
      var rest := RunToHalt(cfg, s', n);
      run := [Event(t, Step)] + rest;
      assert run[1..] == rest;
    }
  }

  ghost function Bound(ts: set<Tid>): (n: nat)
    ensures AllBelow(ts, n)
  {
    if ts == {} then 0
    else
      var t :| t in ts;
      assert forall u :: u in ts ==> u == t || u in ts - {t};
      Max(t + 1, Bound(ts - {t}))
  }

  /** With the store before the wake-up and a capacity that was not rounded up: after any run in which no wait is
      interrupted, the calls underway take no more than a bounded number of further steps, in any order; when none is
      left to take, everybody is at rest or the writer in front needs more room than there is. */
  lemma CallsEndOrWaitForRoom(cfg: Config, run: seq<Event>, rest: seq<Event>)
    requires cfg.Valid() && cfg.order == StoreThenWake && IsPow2(cfg.fsize)
    requires Enables(cfg, Init(cfg), run) && NoWaitInterrupted(cfg, Init(cfg), run)
    requires Enables(cfg, After(cfg, Init(cfg), run), rest) && OnlySteps(rest)
    ensures var s := After(cfg, Init(cfg), run);
      && |rest| <= TotalWork(cfg, s, Bound(cfg.tasks))
      && (Halted(After(cfg, s, rest)) ==> AtRestOrFull(After(cfg, s, rest)))
  {
    hide Inv, WakeInv, Held, Halted, AtRestOrFull, TotalWork;
    InitInv(cfg);
    InitWakes(cfg);
    InitHeld(cfg);
    WakeRun(cfg, Init(cfg), run);
    HeldRun(cfg, Init(cfg), run);
    var s := After(cfg, Init(cfg), run);
    TasksOf(cfg, s);
    StepsAreBounded(cfg, s, rest, Bound(cfg.tasks));
    OnlyStepsNoInterrupt(cfg, s, rest);
    WakeRun(cfg, s, rest);
    HeldRun(cfg, s, rest);
    if Halted(After(cfg, s, rest)) {
      HaltedIsAtRestOrFull(cfg, After(cfg, s, rest));
    }
  }

  lemma TasksOf(cfg: Config, s: State)
    requires Inv(cfg, s)
    ensures s.tasks.Keys == cfg.tasks
  {
    hide Ring.Valid, Knows;
  }

  lemma {:induction false} OnlyStepsNoInterrupt(cfg: Config, s: State, run: seq<Event>)
    requires Enables(cfg, s, run) && OnlySteps(run)
    ensures NoWaitInterrupted(cfg, s, run)
  {
    forall i | 0 <= i < |run|
      ensures run[i].action != Signal
    {
      assert run[i].action.Step? || run[i].action.Fault?;
    }
    NoSignalsNoInterrupt(cfg, s, run);
  }
}
