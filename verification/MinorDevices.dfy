/**
 One driver, several minor devices, one FIFO each. A write reports the whole count whatever fits. Seen from one minor,
 any run of the driver is a run of a single lossy FIFO, reads and writes of that minor overlapping as they may.
 */
module MinorDevices {
  import opened Words
  import opened Kfifo
  import opened FifoBuffer

  type File = nat

  const ERESTARTSYS: int := 512

  // The lossy FIFO

  datatype Op = Put(buf: seq<Byte>, bad: Option<nat>) | Take(count: nat, bad: Option<nat>) {
    function Need(): nat { if Put? then |buf| else count }
  }

  /** A transfer under its lock: how many bytes it moves, and what the call is to return. */
  datatype Transfer = Transfer(op: Op, n: nat, ret: int)

  /** A call takes its lock, measures and copies; then it publishes, and returns. The two calls of one kind exclude each
      other; a read and a write may overlap. */
  datatype Act = Start(op: Op) | FinishPut | FinishTake

  /** What a call returns, and the bytes it handed to the reader. */
  datatype Answer = Answer(ret: int, bytes: seq<Byte>)

  /** What a call comes to that finds the given room. Bytes that do not fit are gone, and reported as written. */
  function Measured(op: Op, room: nat): (t: Transfer)
    ensures t.op == op && t.n <= op.Need() && t.n <= room
  {
    var n, err := TransferLength(op.Need(), room, op.bad), TransferError(op.Need(), room, op.bad);
    Transfer(op, n, if err != 0 then err else if op.Put? then |op.buf| else n)
  }

  datatype Lossy = Lossy(capacity: nat, queue: seq<Byte>, put: Option<Transfer>, take: Option<Transfer>) {
    predicate Valid() {
      && |queue| <= capacity
      && (put.Some? ==>
            put.value.op.Put? && put.value.n <= |put.value.op.buf| && put.value.n <= capacity - |queue|)
      && (take.Some? ==> take.value.op.Take? && take.value.n <= |queue|)
    }

    predicate Enabled(a: Act) {
      match a
      case Start(op) => if op.Put? then put == None else take == None
      case FinishPut => put.Some?
      case FinishTake => take.Some?
    }

    function Room(op: Op): nat
      requires Valid()
    {
      if op.Put? then capacity - |queue| else |queue|
    }

    function After(a: Act): (l: Lossy)
      requires Valid() && Enabled(a)
      ensures l.Valid() && l.capacity == capacity
    {
      match a
      case Start(op) =>
        var t := Measured(op, Room(op));
        if op.Put? then this.(put := Some(t)) else this.(take := Some(t))
      case FinishPut => this.(queue := queue + Keeps(a), put := None)
      case FinishTake => this.(queue := queue[take.value.n..], take := None)
    }

    /** The bytes that enter the queue. */
    function Keeps(a: Act): seq<Byte>
      requires Valid() && Enabled(a)
    {
      if a.FinishPut? then put.value.op.buf[..put.value.n] else []
    }

    /** What a call that ends returns. */
    function Says(a: Act): seq<Answer>
      requires Valid() && Enabled(a)
    {
      match a
      case Start(_) => []
      case FinishPut => [Answer(put.value.ret, [])]
      case FinishTake => [Answer(take.value.ret, queue[..take.value.n])]
    }
  }

  predicate LossyEnables(l: Lossy, acts: seq<Act>)
    requires l.Valid()
    decreases |acts|
  {
    acts != [] ==> l.Enabled(acts[0]) && LossyEnables(l.After(acts[0]), acts[1..])
  }

  function LossyAfter(l: Lossy, acts: seq<Act>): (l': Lossy)
    requires l.Valid() && LossyEnables(l, acts)
    ensures l'.Valid() && l'.capacity == l.capacity
    decreases |acts|
  {
    if acts == [] then l else LossyAfter(l.After(acts[0]), acts[1..])
  }

  function LossySays(l: Lossy, acts: seq<Act>): seq<Answer>
    requires l.Valid() && LossyEnables(l, acts)
    decreases |acts|
  {
    if acts == [] then [] else l.Says(acts[0]) + LossySays(l.After(acts[0]), acts[1..])
  }

  // The driver

  /** A ring with its two locks. A writer's bytes are stored past the `in` counter when it starts. */
  datatype Devc = Devc(ring: Ring, put: Option<Transfer>, take: Option<Transfer>) {
    ghost predicate Valid() {
      && ring.Valid() && View().Valid()
      && (put.Some? ==> ring.Staged(put.value.op.buf[..put.value.n]))
    }

    ghost function View(): Lossy
      requires ring.Valid()
    {
      Lossy(ring.Size(), ring.Contents(), put, take)
    }

    ghost function After(a: Act): Devc
      requires Valid() && View().Enabled(a)
    {
      match a
      case Start(op) =>
        if op.Put? then
          var t := Measured(op, ring.Free());
          this.(ring := ring.Stored(op.buf[..t.n]), put := Some(t))
        else this.(take := Some(Measured(op, ring.Used())))
      case FinishPut => this.(ring := ring.AdvanceIn(put.value.n), put := None)
      case FinishTake => this.(ring := ring.AdvanceOut(take.value.n), take := None)
    }
  }

  /** The devices by minor, and the minor each open file was given. */
  datatype State = State(devcs: seq<Devc>, files: map<File, nat>) {
    ghost predicate Valid() {
      && (forall m :: 0 <= m < |devcs| ==> devcs[m].Valid())
      && (forall f :: f in files ==> files[f] < |devcs|)
    }

    ghost function Fifo(m: nat): (l: Lossy)
      requires Valid() && m < |devcs|
      ensures l.Valid()
    {
      devcs[m].View()
    }
  }

  datatype Event = Open(file: File, minor: nat) | Call(file: File, act: Act)

  ghost predicate Enabled(s: State, e: Event)
    requires s.Valid()
  {
    match e
    case Open(_, minor) => minor < |s.devcs|
    case Call(file, act) => file in s.files && s.Fifo(s.files[file]).Enabled(act)
  }

  ghost function Apply(s: State, e: Event): State
    requires s.Valid() && Enabled(s, e)
  {
    match e
    case Open(file, minor) => s.(files := s.files[file := minor])
    case Call(file, act) => var m := s.files[file]; s.(devcs := s.devcs[m := s.devcs[m].After(act)])
  }

  /** A transfer on the ring is the lossy FIFO's on its contents, and leaves a transfer of the other kind alone. */
  lemma DevcIsLossy(d: Devc, a: Act)
    requires d.Valid() && d.View().Enabled(a)
    ensures d.After(a).Valid() && d.After(a).View() == d.View().After(a)
  {
    match a
    case Start(op) =>
      if op.Put? {
        StartPutIsLossy(d, op);
      }
    case FinishPut => FinishPutIsLossy(d);
    case FinishTake => FinishTakeIsLossy(d);
  }

  lemma StartPutIsLossy(d: Devc, op: Op)
    requires d.Valid() && op.Put? && d.put == None
    ensures d.After(Start(op)).Valid() && d.After(Start(op)).View() == d.View().After(Start(op))
  {
    hide Ring.Used, Ring.Staged, Ring.Stored, Measured;
    var n := Measured(op, d.ring.Free()).n;
    StoredStages(d.ring, op.buf[..n]);
    assert d.View().Room(op) == d.ring.Free();
  }

  lemma FinishPutIsLossy(d: Devc)
    requires d.Valid() && d.put.Some?
    ensures d.After(FinishPut).Valid() && d.After(FinishPut).View() == d.View().After(FinishPut)
  {
    hide Ring.Used, Ring.Staged;
    PublishAppends(d.ring, d.put.value.op.buf[..d.put.value.n]);
  }

  lemma FinishTakeIsLossy(d: Devc)
    requires d.Valid() && d.take.Some?
    ensures d.After(FinishTake).Valid() && d.After(FinishTake).View() == d.View().After(FinishTake)
  {
    hide Ring.Used;
    ReleaseDrops(d.ring, d.take.value.n);
  }

  lemma StepValid(s: State, e: Event)
    requires s.Valid() && Enabled(s, e)
    ensures Apply(s, e).Valid() && |Apply(s, e).devcs| == |s.devcs|
  {
    hide Devc.After, Devc.Valid, Lossy.After, Lossy.Enabled;
    if e.Call? {
      DevcIsLossy(s.devcs[s.files[e.file]], e.act);
    }
  }

  /** A call moves the FIFO of its own minor and no other. */
  lemma StepFifo(s: State, e: Event, m: nat)
    requires s.Valid() && Enabled(s, e) && m < |s.devcs|
    ensures Apply(s, e).Valid() && m < |Apply(s, e).devcs|
    ensures if e.Call? && s.files[e.file] == m
      then s.Fifo(m).Enabled(e.act) && Apply(s, e).Fifo(m) == s.Fifo(m).After(e.act)
      else Apply(s, e).Fifo(m) == s.Fifo(m)
  {
    hide Devc.After, Devc.Valid, Lossy.After, Lossy.Enabled;
    StepValid(s, e);
    if e.Call? {
      DevcIsLossy(s.devcs[s.files[e.file]], e.act);
    }
  }

  // Runs and their projections

  ghost predicate Enables(s: State, run: seq<Event>)
    requires s.Valid()
    decreases |run|
  {
    run != [] ==>
      && Enabled(s, run[0])
      && (StepValid(s, run[0]); Enables(Apply(s, run[0]), run[1..]))
  }

  ghost function After(s: State, run: seq<Event>): (s': State)
    requires s.Valid() && Enables(s, run)
    ensures s'.Valid() && |s'.devcs| == |s.devcs|
    decreases |run|
  {
    if run == [] then s
    else
      StepValid(s, run[0]);
      After(Apply(s, run[0]), run[1..])
  }

  /** What an event does to minor m, and what it returns there. */
  ghost function ActsOn(s: State, e: Event, m: nat): seq<Act>
    requires s.Valid() && Enabled(s, e)
  {
    if e.Call? && s.files[e.file] == m then [e.act] else []
  }

  ghost function AnswersOn(s: State, e: Event, m: nat): seq<Answer>
    requires s.Valid() && Enabled(s, e)
  {
    if e.Call? && s.files[e.file] == m then s.Fifo(m).Says(e.act) else []
  }

  /** The acts of a run that reach minor m, through whichever file, and what they returned. */
  ghost function Acts(s: State, run: seq<Event>, m: nat): seq<Act>
    requires s.Valid() && Enables(s, run)
    decreases |run|
  {
    if run == [] then []
    else
      StepValid(s, run[0]);
      ActsOn(s, run[0], m) + Acts(Apply(s, run[0]), run[1..], m)
  }

  ghost function Answers(s: State, run: seq<Event>, m: nat): seq<Answer>
    requires s.Valid() && Enables(s, run)
    decreases |run|
  {
    if run == [] then []
    else
      StepValid(s, run[0]);
      AnswersOn(s, run[0], m) + Answers(Apply(s, run[0]), run[1..], m)
  }

  lemma OneAct(l: Lossy, a: Act, acts: seq<Act>)
    requires l.Valid() && l.Enabled(a) && LossyEnables(l.After(a), acts)
    ensures LossyEnables(l, [a] + acts)
    ensures LossyAfter(l, [a] + acts) == LossyAfter(l.After(a), acts)
    ensures LossySays(l, [a] + acts) == l.Says(a) + LossySays(l.After(a), acts)
  {
    hide Lossy.After, Lossy.Says, Lossy.Enabled, Lossy.Valid;
    assert ([a] + acts)[1..] == acts;
  }

  /** Any interleaved run, seen from one minor, is a run of that minor's own lossy FIFO, with the same answers. */
  lemma {:induction false} MinorsAreIsolated(s: State, run: seq<Event>, m: nat)
    requires s.Valid() && Enables(s, run) && m < |s.devcs|
    ensures LossyEnables(s.Fifo(m), Acts(s, run, m))
    ensures After(s, run).Fifo(m) == LossyAfter(s.Fifo(m), Acts(s, run, m))
    ensures Answers(s, run, m) == LossySays(s.Fifo(m), Acts(s, run, m))
    decreases |run|
  {
    hide Apply, State.Fifo, Lossy.After, Lossy.Says, Lossy.Enabled, Lossy.Valid;
    if run != [] {
      var e, s' := run[0], Apply(s, run[0]);
      StepValid(s, e);
      StepFifo(s, e, m);
      MinorsAreIsolated(s', run[1..], m);
      if e.Call? && s.files[e.file] == m {
        OneAct(s.Fifo(m), e.act, Acts(s', run[1..], m));
      } else {
        assert Acts(s, run, m) == Acts(s', run[1..], m);
        assert Answers(s, run, m) == Answers(s', run[1..], m);
      }
    }
  }

  // Which minor a call reaches, told from the events alone

  /** The minor named by the last open of a file. */
  function LastOpened(run: seq<Event>, file: File): Option<nat> {
    if run == [] then None
    else
      var e := run[|run| - 1];
      if e.Open? && e.file == file then Some(e.minor) else LastOpened(run[..|run| - 1], file)
  }

  /** The acts of the calls on files last opened on minor m. */
  function ActsNamed(run: seq<Event>, m: nat): seq<Act> {
    if run == [] then []
    else
      var before, e := run[..|run| - 1], run[|run| - 1];
      ActsNamed(before, m) + if e.Call? && LastOpened(before, e.file) == Some(m) then [e.act] else []
  }

  lemma {:induction false} SplitRun(s: State, run: seq<Event>, m: nat)
    requires s.Valid() && run != [] && Enables(s, run)
    ensures var before, e := run[..|run| - 1], run[|run| - 1];
      && Enables(s, before) && Enabled(After(s, before), e)
      && After(s, run) == Apply(After(s, before), e)
      && Acts(s, run, m) == Acts(s, before, m) + ActsOn(After(s, before), e, m)
    decreases |run|
  {
    hide Enabled, Apply, State.Valid, ActsOn;
    var before := run[..|run| - 1];
    StepValid(s, run[0]);
    if |run| > 1 {
      var s' := Apply(s, run[0]);
      SplitRun(s', run[1..], m);
      assert run[1..][..|run[1..]| - 1] == before[1..] && run[1..][|run[1..]| - 1] == run[|run| - 1];
      assert Acts(s, before, m) == ActsOn(s, run[0], m) + Acts(s', before[1..], m);
    } else {
      assert run[1..] == [];
      assert Acts(s, run, m) == ActsOn(s, run[0], m) + [];
    }
  }

  /** A file belongs to the minor it was last opened on, and before that to the one it had. */
  lemma {:induction false} FilesAreLastOpened(s: State, run: seq<Event>, file: File)
    requires s.Valid() && Enables(s, run)
    ensures var files := After(s, run).files;
      match LastOpened(run, file)
      case Some(m) => file in files && files[file] == m
      case None => if file in s.files then file in files && files[file] == s.files[file] else file !in files
    decreases |run|
  {
    hide State.Valid, Devc.After;
    if run != [] {
      SplitRun(s, run, 0);
      FilesAreLastOpened(s, run[..|run| - 1], file);
    }
  }

  lemma {:induction false} ActsAreNamed(s: State, run: seq<Event>, m: nat)
    requires s.Valid() && s.files == map[] && Enables(s, run)
    ensures Acts(s, run, m) == ActsNamed(run, m)
    decreases |run|
  {
    hide State.Valid, Devc.After, LastOpened, Apply;
    if run != [] {
      var before, e := run[..|run| - 1], run[|run| - 1];
      SplitRun(s, run, m);
      ActsAreNamed(s, before, m);
      if e.Call? {
        FilesAreLastOpened(s, before, e.file);
      }
    }
  }

  /** From a fresh driver on: the FIFO of minor m has seen exactly the acts of the calls on files last opened on m, in
      their order, and nothing else. */
  lemma CallsReachTheOpenedMinor(s: State, run: seq<Event>, m: nat)
    requires s.Valid() && s.files == map[] && Enables(s, run) && m < |s.devcs|
    ensures LossyEnables(s.Fifo(m), ActsNamed(run, m))
    ensures After(s, run).Fifo(m) == LossyAfter(s.Fifo(m), ActsNamed(run, m))
    ensures Answers(s, run, m) == LossySays(s.Fifo(m), ActsNamed(run, m))
  {
    MinorsAreIsolated(s, run, m);
    ActsAreNamed(s, run, m);
  }

  /** The next event moves the FIFO of the minor its file was last opened on, and no other. */
  lemma NextCallReaches(s: State, run: seq<Event>, e: Event, m: nat)
    requires s.Valid() && s.files == map[] && Enables(s, run) && Enabled(After(s, run), e) && m < |s.devcs|
    ensures Apply(After(s, run), e).Valid() && m < |Apply(After(s, run), e).devcs|
    ensures var l, l' := After(s, run).Fifo(m), Apply(After(s, run), e).Fifo(m);
      if e.Call? && LastOpened(run, e.file) == Some(m) then l.Enabled(e.act) && l' == l.After(e.act) else l' == l
  {
    hide State.Fifo, Lossy.Enabled, Lossy.After, Apply, LastOpened;
    StepFifo(After(s, run), e, m);
    if e.Call? {
      FilesAreLastOpened(s, run, e.file);
    }
  }

  // What the lossy FIFO keeps

  /** Nothing but the write's own end ends it, and only the ends of reads move the queue meanwhile. */
  lemma {:induction false} PutGoesOn(l: Lossy, acts: seq<Act>)
    requires l.Valid() && l.put.Some? && LossyEnables(l, acts) && FinishPut !in acts
    ensures LossyAfter(l, acts).put == l.put
    ensures |LossyAfter(l, acts).queue| <= |l.queue|
    ensures FinishTake !in acts ==> LossyAfter(l, acts).queue == l.queue
    decreases |acts|
  {
    if acts != [] {
      assert acts[0] in acts;
      PutGoesOn(l.After(acts[0]), acts[1..]);
    }
  }

  /** Likewise for a read; writes that end meanwhile only add behind the bytes it hands over. */
  lemma {:induction false} TakeGoesOn(l: Lossy, acts: seq<Act>)
    requires l.Valid() && l.take.Some? && LossyEnables(l, acts) && FinishTake !in acts
    ensures LossyAfter(l, acts).take == l.take && l.queue <= LossyAfter(l, acts).queue
    decreases |acts|
  {
    if acts != [] {
      assert acts[0] in acts;
      TakeGoesOn(l.After(acts[0]), acts[1..]);
    }
  }

  /** A write, whatever reads go on beside it. Without a fault it returns its full count and keeps the prefix that
      fitted when it started: everything exactly if everything fitted then, else enough to fill the queue as it was. If
      its buffer faults within what fits, it returns -EFAULT and keeps the bytes before the fault. */
  lemma WriteKeepsThePrefixThatFits(l: Lossy, buf: seq<Byte>, bad: Option<nat>, during: seq<Act>)
    requires l.Valid() && l.put == None && FinishPut !in during
    requires LossyEnables(l.After(Start(Put(buf, bad))), during)
    ensures var m, room := LossyAfter(l.After(Start(Put(buf, bad))), during), l.capacity - |l.queue|;
      && m.Enabled(FinishPut) && m.Keeps(FinishPut) <= buf
      && m.After(FinishPut).queue == m.queue + m.Keeps(FinishPut)
      && (if bad.Some? && bad.value < |buf| && bad.value < room
          then m.Says(FinishPut) == [Answer(-EFAULT, [])] && |m.Keeps(FinishPut)| == bad.value
          else && m.Says(FinishPut) == [Answer(|buf|, [])]
               && (m.Keeps(FinishPut) == buf <==> |buf| <= room)
               && (|buf| > room ==> |m.Keeps(FinishPut)| == room))
      && (FinishTake !in during ==> m.queue == l.queue)
  {
    PutGoesOn(l.After(Start(Put(buf, bad))), during);
  }

  /** A read, whatever writes go on beside it: it hands over and removes the oldest bytes, as many as it asked for or
      were queued when it started, and returns their number; or those before the fault, and returns -EFAULT. */
  lemma ReadReturnsWhatItHandsOver(l: Lossy, count: nat, bad: Option<nat>, during: seq<Act>)
    requires l.Valid() && l.take == None && FinishTake !in during
    requires LossyEnables(l.After(Start(Take(count, bad))), during)
    ensures var m, most := LossyAfter(l.After(Start(Take(count, bad))), during), Min(count, |l.queue|);
      && m.Enabled(FinishTake) && |m.Says(FinishTake)| == 1
      && var ret, out := m.Says(FinishTake)[0].ret, m.Says(FinishTake)[0].bytes;
      && out <= l.queue && m.queue == out + m.After(FinishTake).queue
      && (if bad.Some? && bad.value < most then ret == -EFAULT && |out| == bad.value else ret == |out| == most)
  {
    TakeGoesOn(l.After(Start(Take(count, bad))), during);
  }

  /** The bytes a run of the lossy FIFO accepted, and those it handed out. */
  function Accepted(l: Lossy, acts: seq<Act>): seq<Byte>
    requires l.Valid() && LossyEnables(l, acts)
    decreases |acts|
  {
    if acts == [] then [] else l.Keeps(acts[0]) + Accepted(l.After(acts[0]), acts[1..])
  }

  function Delivered(answers: seq<Answer>): seq<Byte> {
    if answers == [] then [] else answers[0].bytes + Delivered(answers[1..])
  }

  lemma {:induction false} DeliveredConcat(a: seq<Answer>, b: seq<Answer>)
    ensures Delivered(a + b) == Delivered(a) + Delivered(b)
    decreases |a|
  {
    if a == [] {
      assert a + b == b;
    } else {
      assert (a + b)[1..] == a[1..] + b;
      DeliveredConcat(a[1..], b);
    }
  }

  /** Nothing that was accepted is lost, doubled or reordered, faults or not. */
  lemma {:induction false} AcceptedIsDeliveredOrQueued(l: Lossy, acts: seq<Act>)
    requires l.Valid() && LossyEnables(l, acts)
    ensures l.queue + Accepted(l, acts) == Delivered(LossySays(l, acts)) + LossyAfter(l, acts).queue
    decreases |acts|
  {
    hide Lossy.After, Lossy.Says, Lossy.Keeps, Lossy.Enabled, Lossy.Valid, Delivered;
    NothingDelivered();
    if acts != [] {
      var m, kept, out := l.After(acts[0]), l.Keeps(acts[0]), Delivered(l.Says(acts[0]));
      var rest := LossySays(m, acts[1..]);
      ActConserves(l, acts[0]);
      AcceptedIsDeliveredOrQueued(m, acts[1..]);
      DeliveredConcat(l.Says(acts[0]), rest);
      calc {
        l.queue + Accepted(l, acts);
        (l.queue + kept) + Accepted(m, acts[1..]);
        out + (m.queue + Accepted(m, acts[1..]));
        (out + Delivered(rest)) + LossyAfter(m, acts[1..]).queue;
      }
    }
  }

  lemma NothingDelivered()
    ensures Delivered([]) == []
  {
  }

  lemma ActConserves(l: Lossy, a: Act)
    requires l.Valid() && l.Enabled(a)
    ensures l.queue + l.Keeps(a) == Delivered(l.Says(a)) + l.After(a).queue
  {
    if a.FinishTake? {
      assert l.Says(a)[1..] == [];
    }
  }

  // The driver object

  function Finish(op: Op): Act { if op.Put? then FinishPut else FinishTake }

  /** A whole call: its start, and its end with nothing in between. */
  function Whole(file: File, op: Op): seq<Event> { [Call(file, Start(op)), Call(file, Finish(op))] }

  /** No call is underway on the minor of the file. */
  ghost predicate AtRest(s: State, file: File)
    requires s.Valid()
  {
    file in s.files && s.devcs[s.files[file]].put == None && s.devcs[s.files[file]].take == None
  }

  /** What a whole call does to the ring. */
  ghost function RingAfter(r: Ring, op: Op): Ring
    requires r.Valid()
  {
    match op
    case Put(buf, bad) => r.Pushed(buf[..TransferLength(|buf|, r.Free(), bad)])
    case Take(count, bad) => r.AdvanceOut(TransferLength(count, r.Used(), bad))
  }

  /** What a whole call returns and hands out. */
  ghost function WholeAnswer(r: Ring, op: Op): Answer
    requires r.Valid()
  {
    var t := Measured(op, if op.Put? then r.Free() else r.Used());
    Answer(t.ret, if op.Put? then [] else r.Contents()[..t.n])
  }

  lemma RingOf(s: State, m: nat)
    requires s.Valid() && m < |s.devcs|
    ensures s.devcs[m].ring.Valid()
  {
    hide Lossy.Valid, Ring.Valid;
  }

  /** On one device. */
  lemma WholeOnDevc(d: Devc, op: Op)
    requires d.Valid() && d.put == None && d.take == None
    ensures d.View().Enabled(Start(op)) && d.After(Start(op)).Valid()
    ensures var e := d.After(Start(op));
      && e.View().Enabled(Finish(op))
      && e.After(Finish(op)) == Devc(RingAfter(d.ring, op), None, None)
      && e.View().Says(Finish(op)) == [WholeAnswer(d.ring, op)]
  {
    hide Ring.Used, Ring.Free, Ring.Stored, Ring.Staged, Ring.Valid;
    DevcIsLossy(d, Start(op));
    FreeIsWord(d.ring);
  }

  lemma TwoEvents(s: State, e: Event, f: Event, m: nat)
    requires s.Valid() && Enabled(s, e) && Apply(s, e).Valid() && Enabled(Apply(s, e), f)
    ensures Enables(s, [e, f])
    ensures Apply(Apply(s, e), f).Valid() && After(s, [e, f]) == Apply(Apply(s, e), f)
    ensures Answers(s, [e, f], m) == AnswersOn(s, e, m) + AnswersOn(Apply(s, e), f, m)
  {
    hide Enabled, Apply, State.Valid, AnswersOn;
    assert [e, f][1..] == [f] && [f][1..] == [];
    StepValid(s, e);
    StepValid(Apply(s, e), f);
    assert After(Apply(s, e), [f]) == Apply(Apply(s, e), f);
    assert Answers(Apply(Apply(s, e), f), [], m) == [];
    assert Answers(Apply(s, e), [f], m) == AnswersOn(Apply(s, e), f, m);
  }

  /** On the driver: one ring changes, one answer is given. */
  lemma WholeCall(s: State, file: File, op: Op)
    requires s.Valid() && AtRest(s, file)
    ensures Enables(s, Whole(file, op)) && s.devcs[s.files[file]].ring.Valid()
    ensures var m, r := s.files[file], s.devcs[s.files[file]].ring;
      && After(s, Whole(file, op)).files == s.files
      && After(s, Whole(file, op)).devcs == s.devcs[m := Devc(RingAfter(r, op), None, None)]
      && Answers(s, Whole(file, op), m) == [WholeAnswer(r, op)]
  {
    hide Ring.Valid, Lossy.Valid, Devc.Valid, Devc.After, Lossy.Enabled, Lossy.Says, RingAfter, WholeAnswer;
    var m := s.files[file];
    RingOf(s, m);
    WholeOnDevc(s.devcs[m], op);
    StartSaysNothing(s.Fifo(m), op);
    StepValid(s, Call(file, Start(op)));
    TwoEvents(s, Call(file, Start(op)), Call(file, Finish(op)), m);
  }

  lemma StartSaysNothing(l: Lossy, op: Op)
    requires l.Valid() && l.Enabled(Start(op))
    ensures l.Says(Start(op)) == []
  {
  }

  class Driver {
    const devcs: seq<Fifo>
    /** private_data of each open file, as the minor it points to. */
    var files: map<File, nat>

    ghost predicate Valid()
      reads this, devcs, set m | 0 <= m < |devcs| :: devcs[m].slots
    {
      && (forall k, m :: 0 <= k < m < |devcs| ==> devcs[k] != devcs[m] && devcs[k].slots != devcs[m].slots)
      && View().Valid()
    }

    ghost function View(): State
      reads this, devcs, set m | 0 <= m < |devcs| :: devcs[m].slots
    {
      State(Devcs(|devcs|), files)
    }

    ghost function Devcs(n: nat): (ds: seq<Devc>)
      requires n <= |devcs|
      reads devcs, set m | 0 <= m < |devcs| :: devcs[m].slots
      ensures |ds| == n && forall m :: 0 <= m < n ==> ds[m] == Devc(devcs[m].View(), None, None)
    {
      if n == 0 then [] else Devcs(n - 1) + [Devc(devcs[n - 1].View(), None, None)]
    }

    /** The FIFO loop of mcdevdrvs_init: one ring per minor. */
    constructor (minors: nat, fsize: nat)
      requires 2 <= fsize <= MAX_CAPACITY
      ensures Valid() && |devcs| == minors && files == map[]
      ensures forall m :: 0 <= m < minors ==> View().Fifo(m) == Lossy(RoundUpPow2(fsize), [], None, None)
    {
      var ds: seq<Fifo> := [];
      RoundUpIsLeast(fsize);
      RoundUpInRange(fsize);
      EmptyIsValid(RoundUpPow2(fsize));
      for m := 0 to minors
        invariant |ds| == m
        invariant forall k :: 0 <= k < m ==> fresh(ds[k]) && fresh(ds[k].slots)
        invariant forall k :: 0 <= k < m ==> ds[k].View() == Empty(RoundUpPow2(fsize))
        invariant forall k, l :: 0 <= k < l < m ==> ds[k] != ds[l] && ds[k].slots != ds[l].slots
      {
        var f := new Fifo(RoundUpPow2(fsize));
        ds := ds + [f];
      }
      devcs, files := ds, map[];
    }

    /** driver_open_fifo */
    method Open(file: File, minor: nat) returns (ret: int)
      requires Valid() && minor < |devcs|
      modifies `files
      ensures ret == 0 && files == old(files)[file := minor]
      ensures Valid() && View() == Apply(old(View()), Event.Open(file, minor))
    {
      files := files[file := minor];
      ret := 0;
      assert View().devcs == old(View()).devcs;
    }

    /** driver_write_fifo, uninterrupted but perhaps for a signal at its lock. */
    method Write(file: File, buf: seq<Byte>, bad: Option<nat>, signal: bool) returns (ret: int)
      requires Valid() && file in files
      modifies devcs[files[file]], devcs[files[file]].slots
      ensures Valid()
      ensures signal ==> ret == -ERESTARTSYS && View() == old(View())
      ensures !signal ==>
        var whole := Whole(file, Put(buf, bad));
        && Enables(old(View()), whole) && View() == After(old(View()), whole)
        && [Answer(ret, [])] == Answers(old(View()), whole, files[file])
    {
      hide Ring.Used, Ring.Valid, Ring.Pushed, Devc.Valid, After, Answers, Enables;
      if signal {
        return -ERESTARTSYS;
      }
      WholeCall(View(), file, Put(buf, bad));
      var dev := devcs[files[file]];
      assert Devc(dev.View(), None, None) == View().devcs[files[file]];
      var copied;
      ret, copied := dev.FromUser(buf, bad);
      if ret == 0 {
        ret := |buf|;
      }
      assert View().devcs == After(old(View()), Whole(file, Put(buf, bad))).devcs;
    }

    /** driver_read_fifo, likewise. */
    method Read(file: File, count: nat, bad: Option<nat>, signal: bool) returns (ret: int, out: seq<Byte>)
      requires Valid() && file in files
      modifies devcs[files[file]]
      ensures Valid()
      ensures signal ==> ret == -ERESTARTSYS && out == [] && View() == old(View())
      ensures !signal ==>
        var whole := Whole(file, Take(count, bad));
        && Enables(old(View()), whole) && View() == After(old(View()), whole)
        && [Answer(ret, out)] == Answers(old(View()), whole, files[file])
    {
      hide Ring.Used, Ring.Valid, Devc.Valid, After, Answers, Enables;
      if signal {
        return -ERESTARTSYS, [];
      }
      WholeCall(View(), file, Take(count, bad));
      var dev := devcs[files[file]];
      assert Devc(dev.View(), None, None) == View().devcs[files[file]];
      ret, out := dev.ToUser(count, bad);
      if ret == 0 {
        ret := |out|;
      }
      assert View().devcs == After(old(View()), Whole(file, Take(count, bad))).devcs;
    }
  }
}
