/**
 Runs of a single task: what one uninterrupted system call does to the shared state. These runs connect the step
 system to the sequential driver, and serve as building blocks for runs that show a limit of the protocol.
 */
module SharedFifoSolo {
  import opened Words
  import opened Kfifo
  import opened SharedFifo
  import opened SharedFifoQueue

  ghost predicate Reaches(cfg: Config, s: State, run: seq<Event>, s': State) {
    Enables(cfg, s, run) && After(cfg, s, run) == s'
  }

  predicate OnlyBy(run: seq<Event>, t: Tid) {
    forall i :: 0 <= i < |run| ==> run[i].task == t && run[i].action != Signal
  }

  lemma Nothing(cfg: Config, s: State) returns (run: seq<Event>)
    ensures Reaches(cfg, s, run, s) && run == []
  {
    run := [];
  }

  lemma Then(cfg: Config, s: State, run: seq<Event>, m: State, e: Event) returns (run': seq<Event>, s': State)
    requires Reaches(cfg, s, run, m) && Enabled(m, e)
    ensures s' == Apply(cfg, m, e) && Reaches(cfg, s, run', s') && run' == run + [e]
  {
    s' := Apply(cfg, m, e);
    run' := run + [e];
    OneStepRun(cfg, m, e);
    RunsCompose(cfg, s, run, [e]);
  }

  lemma Join(cfg: Config, s: State, a: seq<Event>, m: State, b: seq<Event>, s': State)
    requires Reaches(cfg, s, a, m) && Reaches(cfg, m, b, s')
    ensures Reaches(cfg, s, a + b, s')
  {
    RunsCompose(cfg, s, a, b);
  }

  /** The bytes a transfer of n bytes moves. */
  ghost function Moved(r: Ring, c: Call, n: nat): seq<Byte>
    requires r.Valid() && n <= c.Need() && (c.Read? ==> n <= r.Used())
  {
    match c
    case Write(buf) => buf[..n]
    case Read(_) => r.Contents()[..n]
  }

  /** A copy left alone that faults at byte `stop`, or copies up to its limit. r is the ring as it was measured. */
  lemma {:induction false} CopyAlone(cfg: Config, s: State, t: Tid, r: Ring, stop: nat)
    returns (run: seq<Event>, s': State)
    requires r.Valid() && t in s.tasks && s.tasks[t].pc.Copy? && !s.tasks[t].fault
    requires Copied(s, t, r)
    requires |s.tasks[t].done| <= stop <= s.tasks[t].limit
    ensures Reaches(cfg, s, run, s') && OnlyBy(run, t)
    ensures var k, p := s.tasks[t], Moved(r, s.tasks[t].call, stop);
      s' == s.(ring := if k.call.Write? then r.Stored(p) else r)
             .Put(t, k.(pc := Commit, done := p, fault := stop < k.limit))
    decreases stop - |s.tasks[t].done|
  {
    hide Ring.Used, Ring.Free, Ring.At, Ring.StoreAt;
    var k := s.tasks[t];
    run := Nothing(cfg, s);
    if |k.done| < stop {
      var m, rest;
      run, m := Then(cfg, s, run, s, Event(t, Step));
      CopyOne(cfg, s, t, r);
      rest, s' := CopyAlone(cfg, m, t, r, stop);
      Join(cfg, s, run, m, rest, s');
      run := run + rest;
    } else {
      run, s' := Then(cfg, s, run, s, Event(t, if stop < k.limit then Fault else Step));
    }
    assert s'.tasks == s.tasks[t := s'.tasks[t]];
  }

  /** Task t is inside its copy, and has moved exactly the first bytes of the transfer out of, or into, ring r. */
  ghost predicate Copied(s: State, t: Tid, r: Ring)
    requires r.Valid() && t in s.tasks
  {
    var k := s.tasks[t];
    && |k.done| <= k.limit <= k.call.Need()
    && (k.call.Write? ==> k.limit <= r.Free() && s.ring == r.Stored(k.done))
    && (k.call.Read? ==> k.limit <= r.Used() && s.ring == r)
    && k.done == Moved(r, k.call, |k.done|)
  }

  lemma CopyOne(cfg: Config, s: State, t: Tid, r: Ring)
    requires r.Valid() && t in s.tasks && s.tasks[t].pc.Copy? && Copied(s, t, r)
    requires |s.tasks[t].done| < s.tasks[t].limit
    ensures var k := s.tasks[t];
      var done := Moved(r, k.call, |k.done| + 1);
      && s.ring.Size() > 0
      && Apply(cfg, s, Event(t, Step))
         == s.(ring := if k.call.Write? then r.Stored(done) else r).Put(t, k.(done := done))
  {
    hide Ring.Used, Ring.Free, Ring.At, Ring.StoreAt, Ring.Stored, Word, Slot;
    var k := s.tasks[t];
    var done := Moved(r, k.call, |k.done| + 1);
    if k.call.Write? {
      StoredNext(r, k.call.buf, |k.done|);
    } else {
      ContentsNext(r, |k.done|);
    }
    assert done == k.done + [NextByte(s.ring, k)];
  }

  predicate LocksFree(s: State) { s.rLock == None && s.wLock == None && s.lock == None }

  ghost predicate Quiet(s: State, t: Tid) {
    t in s.tasks && s.tasks[t] == RESTING && s.ring.Valid() && LocksFree(s)
  }

  /** One more step of the same task. */
  lemma On(cfg: Config, s: State, run: seq<Event>, m: State, t: Tid) returns (run': seq<Event>, s': State)
    requires Reaches(cfg, s, run, m) && OnlyBy(run, t) && Enabled(m, Event(t, Step))
    ensures s' == Apply(cfg, m, Event(t, Step)) && Reaches(cfg, s, run', s') && OnlyBy(run', t)
  {
    run', s' := Then(cfg, s, run, m, Event(t, Step));
  }

  /** A call up to the start of its copy. */
  lemma StartAlone(cfg: Config, s: State, t: Tid, c: Call) returns (run: seq<Event>, s': State)
    requires t in s.tasks && s.tasks[t] == RESTING && s.ring.Valid() && s.TransferLock(c) == None
    requires c.Write? ==> |c.buf| <= s.avail
    ensures Reaches(cfg, s, run, s') && OnlyBy(run, t)
    ensures s' == s.SetTransferLock(c, Some(t)).Put(t, Task(c, Copy, Min(c.Need(), s.Room(c)), [], false))
  {
    hide Ring.Used, Ring.Free;
    var m;
    run := Nothing(cfg, s);
    run, m := Then(cfg, s, run, s, Event(t, Begin(c)));
    run, m := On(cfg, s, run, m, t);
    assert m.tasks[t].pc == if c.Write? then Try else Measure;
    if c.Write? {
      run, m := On(cfg, s, run, m, t);
    }
    assert m.tasks[t].pc.Measure?;
    run, s' := On(cfg, s, run, m, t);
    assert s'.tasks == s.tasks[t := s'.tasks[t]];
  }

  /** `lock` taken and both counters read. */
  lemma ReadCountAlone(cfg: Config, s: State, t: Tid) returns (run: seq<Event>, s': State)
    requires t in s.tasks && s.tasks[t].pc.PubLock? && s.ring.Valid() && s.lock == None
    ensures Reaches(cfg, s, run, s') && OnlyBy(run, t)
    ensures s.ring.Free() >= 0
    ensures s' == s.(lock := Some(t)).Put(t, s.tasks[t].(pc := PubStore(s.ring.Free())))
  {
    hide Ring.Used, Ring.Free, FreeBetween;
    var m;
    run := Nothing(cfg, s);
    run, m := On(cfg, s, run, s, t);
    assert m.tasks[t].pc.PubRead?;
    run, m := On(cfg, s, run, m, t);
    FreeAtOnce(s.ring);
    assert m.tasks[t].pc.PubOut? || m.tasks[t].pc.PubIn?;
    run, s' := On(cfg, s, run, m, t);
    assert s'.tasks == s.tasks[t := s'.tasks[t]];
  }

  /** The store of the count, from the request for `lock` on. */
  lemma StoreCountAlone(cfg: Config, s: State, t: Tid) returns (run: seq<Event>, s': State)
    requires t in s.tasks && s.tasks[t].pc.PubLock? && s.ring.Valid() && s.lock == None
    requires s.tasks[t].call.Read? ==> cfg.order == WakeThenStore
    ensures Reaches(cfg, s, run, s') && OnlyBy(run, t)
    ensures s' == s.(avail := s.ring.Free()).Put(t, s.tasks[t].(pc := Return))
  {
    hide Ring.Used, Ring.Free, Ring.Valid;
    var m;
    run, m := ReadCountAlone(cfg, s, t);
    run, m := On(cfg, s, run, m, t);
    assert m.tasks[t].pc.PubUnlock?;
    run, s' := On(cfg, s, run, m, t);
    assert s'.tasks == s.tasks[t := s'.tasks[t]];
  }

  /** From the release of the transfer lock through the store of the count. */
  lemma PublishAlone(cfg: Config, s: State, t: Tid) returns (run: seq<Event>, s': State)
    requires t in s.tasks && s.tasks[t].pc.Unlock? && s.ring.Valid() && s.lock == None
    requires s.tasks[t].call.Read? ==> cfg.order == WakeThenStore
    ensures Reaches(cfg, s, run, s') && OnlyBy(run, t)
    ensures s' == s.SetTransferLock(s.tasks[t].call, None).(avail := s.ring.Free())
                   .Put(t, s.tasks[t].(pc := Return))
  {
    hide Ring.Used, Ring.Free;
    var m, more;
    run := Nothing(cfg, s);
    run, m := On(cfg, s, run, s, t);
    more, s' := StoreCountAlone(cfg, m, t);
    Join(cfg, s, run, m, more, s');
    run := run + more;
    assert s'.tasks == s.tasks[t := s'.tasks[t]];
  }

  /** A write up to the publication of its bytes, the writer lock still held. */
  lemma TransferInAlone(cfg: Config, s: State, t: Tid, buf: seq<Byte>, stop: nat)
    returns (run: seq<Event>, s': State)
    requires t in s.tasks && s.tasks[t] == RESTING && s.ring.Valid() && s.wLock == None
    requires |buf| <= s.avail && stop <= Min(|buf|, s.ring.Free())
    ensures Reaches(cfg, s, run, s') && OnlyBy(run, t)
    ensures var p, n := buf[..stop], Min(|buf|, s.ring.Free());
      s' == s.(ring := s.ring.Pushed(p), wLock := Some(t), sent := s.sent + p)
             .Put(t, Task(Write(buf), Unlock, n, p, stop < n))
  {
    hide Ring.Used, Ring.Free, Ring.At, Ring.StoreAt;
    var m, more;
    run, m := StartAlone(cfg, s, t, Write(buf));
    more, s' := CopyAlone(cfg, m, t, s.ring, stop);
    Join(cfg, s, run, m, more, s');
    run := run + more;
    run, s' := On(cfg, s, run, s', t);
    assert s'.tasks == s.tasks[t := s'.tasks[t]];
  }

  /** chardrvs_write_fifo with nobody else about: the prefix up to the fault, or all that fits, is appended, and the
      count stored is the free space left. */
  lemma WriteAlone(cfg: Config, s: State, t: Tid, buf: seq<Byte>, stop: nat) returns (run: seq<Event>, s': State)
    requires Quiet(s, t) && |buf| <= s.avail && stop <= Min(|buf|, s.ring.Free())
    ensures Reaches(cfg, s, run, s') && OnlyBy(run, t)
    ensures var p, n := buf[..stop], Min(|buf|, s.ring.Free());
      var r' := s.ring.Pushed(p);
      s' == s.(ring := r', avail := r'.Free(), sent := s.sent + p)
             .Put(t, Task(Write(buf), Return, n, p, stop < n))
  {
    hide Ring.Used, Ring.Free, Ring.At, Ring.StoreAt;
    var m, more;
    run, m := TransferInAlone(cfg, s, t, buf, stop);
    PushAppends(s.ring, buf[..stop]);
    more, s' := PublishAlone(cfg, m, t);
    Join(cfg, s, run, m, more, s');
    run := run + more;
    assert s'.tasks == s.tasks[t := s'.tasks[t]];
  }

  /** chardrvs_read_fifo up to and including its wake-up, in the driver's order. */
  lemma ReadToWakeAlone(cfg: Config, s: State, t: Tid, count: nat, stop: nat) returns (run: seq<Event>, s': State)
    requires cfg.order == WakeThenStore
    requires t in s.tasks && s.tasks[t] == RESTING && s.ring.Valid() && s.rLock == None
    requires stop <= Min(count, s.ring.Used())
    ensures Reaches(cfg, s, run, s') && OnlyBy(run, t)
    ensures var p, n := s.ring.Contents()[..stop], Min(count, s.ring.Used());
      s' == s.(ring := s.ring.AdvanceOut(stop), got := s.got + p, waiting := {}, rLock := Some(t))
             .Put(t, Task(Read(count), Unlock, n, p, stop < n))
  {
    hide Ring.Used, Ring.Free, Ring.At, Ring.StoreAt;
    var m, more;
    run, m := StartAlone(cfg, s, t, Read(count));
    more, s' := CopyAlone(cfg, m, t, s.ring, stop);
    Join(cfg, s, run, m, more, s');
    run := run + more;
    run, m := On(cfg, s, run, s', t);
    run, s' := On(cfg, s, run, m, t);
    assert s'.tasks == s.tasks[t := s'.tasks[t]];
  }

  /** chardrvs_read_fifo with nobody else about. */
  lemma ReadAlone(cfg: Config, s: State, t: Tid, count: nat, stop: nat) returns (run: seq<Event>, s': State)
    requires cfg.order == WakeThenStore && Quiet(s, t) && stop <= Min(count, s.ring.Used())
    ensures Reaches(cfg, s, run, s') && OnlyBy(run, t)
    ensures var p, n, r' := s.ring.Contents()[..stop], Min(count, s.ring.Used()), s.ring.AdvanceOut(stop);
      s' == s.(ring := r', avail := r'.Free(), got := s.got + p, waiting := {})
             .Put(t, Task(Read(count), Return, n, p, stop < n))
  {
    hide Ring.Used, Ring.Free, Ring.At, Ring.StoreAt;
    var m, more;
    run, m := ReadToWakeAlone(cfg, s, t, count, stop);
    ReleaseDrops(s.ring, stop);
    more, s' := PublishAlone(cfg, m, t);
    Join(cfg, s, run, m, more, s');
    run := run + more;
    assert s'.tasks == s.tasks[t := s'.tasks[t]];
  }
}
