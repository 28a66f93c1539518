/**
 The shared FIFO device as one task sees it when nobody else is about. Each call is tied to the step systems: the
 state it leaves is the one that the same call's own steps, run without interruption, lead to.
 */
module CharDevice {
  import opened Words
  import opened Kfifo
  import opened FifoBuffer
  import opened SharedFifo
  import opened SharedFifoSolo
  import SharedFifoWakeups
  import OpenCount

  const EPERM: int := 1

  /** What a call comes to: a return value, or a sleep on the wait queue. */
  datatype Outcome = Returned(value: int) | Sleeps

  function OpenAlone(s: OpenCount.State, h: OpenCount.Handle): OpenCount.State
    requires s.PhaseOf(h) == OpenCount.Closed
  {
    var c := OpenCount.Apply(s, OpenCount.Check(h));
    if c.PhaseOf(h) == OpenCount.Checked then OpenCount.Apply(c, OpenCount.Increment(h)) else c
  }

  function ReleaseAlone(s: OpenCount.State, h: OpenCount.Handle): OpenCount.State
    requires s.PhaseOf(h) == OpenCount.Opened
  {
    OpenCount.Apply(OpenCount.Apply(s, OpenCount.Guard(h)), OpenCount.Decrement(h))
  }

  /** A transfer that is cut short faults; one that is not moves all it can. */
  lemma TransferOutcome(want: nat, room: nat, bad: Option<nat>)
    ensures 0 <= TransferLength(want, room, bad) <= Min(want, room)
    ensures TransferLength(want, room, bad) < Min(want, room) <==> TransferError(want, room, bad) != 0
    ensures TransferError(want, room, bad) == 0 || TransferError(want, room, bad) == -EFAULT
  {
  }

  lemma SplitAt(q: seq<Byte>, n: nat)
    requires n <= |q|
    ensures q == q[..n] + q[n..]
  {
  }

  class Device {
    const fifo: Fifo
    var avail: int
    var usrsCnt: nat
    var refCntr: int

    /** setup_chardrvs on zeroed memory. `avail` takes the parameter, the ring the rounded-up capacity. */
    static method Setup(fsize: nat, memory: bool) returns (ret: int, dev: Device?)
      requires 1 <= fsize <= MAX_CAPACITY
      ensures ret == if fsize < 2 then -EINVAL else if !memory then -ENOMEM else 0
      ensures dev != null <==> ret == 0
      ensures dev != null ==>
        var init := Init(Config(fsize, WakeThenStore, InFirst, {}));
        && fresh(dev) && fresh(dev.fifo) && fresh(dev.fifo.slots)
        && dev.fifo.View().Valid() && dev.fifo.View().Contents() == [] && dev.fifo.View().Size() == RoundUpPow2(fsize)
        && dev.avail == fsize && dev.refCntr == 0 && dev.usrsCnt == 2
        && dev.fifo.View() == init.ring && dev.avail == init.avail
        && dev.refCntr == OpenCount.Init().refs && dev.usrsCnt == OpenCount.Init().users
    {
      RoundUpIsLeast(fsize);
      if fsize == 1 {
        assert Pow2(0) == 1;
        return -EINVAL, null;
      }
      if !memory {
        return -ENOMEM, null;
      }
      RoundUpInRange(fsize);
      EmptyIsValid(RoundUpPow2(fsize));
      var f := new Fifo(RoundUpPow2(fsize));
      dev := new Device(f, fsize);
      ret := 0;
    }

    constructor (f: Fifo, fsize: nat)
      ensures fifo == f && avail == fsize && usrsCnt == OpenCount.DEFAULT_NR_USERS && refCntr == 0
    {
      fifo, avail, usrsCnt, refCntr := f, fsize, OpenCount.DEFAULT_NR_USERS, 0;
    }

    ghost predicate Mirrors(s: State)
      reads this, fifo, fifo.slots
    {
      s.ring == fifo.View() && s.avail == avail
    }

    /** chardrvs_write_fifo: sleep while the count does not cover the buffer, else append what fits, publish the free
        space and return the number of bytes, or -EFAULT with the bytes before the fault appended all the same. */
    method WriteFifo(buf: seq<Byte>, bad: Option<nat>, ghost cfg: Config, ghost s: State, ghost t: Tid)
      returns (result: Outcome, ghost run: seq<Event>, ghost s': State)
      requires Quiet(s, t) && Mirrors(s)
      modifies `avail, fifo, fifo.slots
      ensures Reaches(cfg, s, run, s') && OnlyBy(run, t) && Mirrors(s')
      ensures fifo.View().Valid()
      ensures result == Sleeps <==> old(avail) < |buf|
      ensures result == Sleeps ==> s'.Asleep(t) && avail == old(avail) && fifo.View() == old(fifo.View())
      ensures result.Returned? ==>
        var n := TransferLength(|buf|, old(fifo.View()).Free(), bad);
        && 0 <= n <= |buf|
        && fifo.View().Contents() == old(fifo.View()).Contents() + buf[..n]
        && result.value == (if bad.Some? && bad.value < |buf| && bad.value < old(fifo.View()).Free()
                            then -EFAULT else Min(|buf|, old(fifo.View()).Free()))
        && avail == fifo.View().Free()
        && t in s'.tasks && s'.tasks[t].pc.Return? && s'.tasks[t].Result() == result.value
    {
      hide Ring.Valid, Ring.AdvanceIn, Ring.AdvanceOut, Ring.Pushed, Word, TransferLength, TransferError;
      FreeIsWord(fifo.View());
      TransferOutcome(|buf|, fifo.View().Free(), bad);
      if avail < |buf| {
        result := Sleeps;
        run, s' := SharedFifoWakeups.SleepAlone(cfg, s, t, buf);
        return;
      }
      var ret, copied := fifo.FromUser(buf, bad);
      avail := fifo.slots.Length - Word(fifo.kin - fifo.kout);
      result := Returned(if ret != 0 then ret else copied);
      run, s' := WriteAlone(cfg, s, t, buf, copied);
    }

    /** chardrvs_read_fifo: hand over the oldest bytes, wake the queue, publish the free space. */
    method ReadFifo(count: nat, bad: Option<nat>, ghost cfg: Config, ghost s: State, ghost t: Tid)
      returns (result: Outcome, out: seq<Byte>, ghost run: seq<Event>, ghost s': State)
      requires cfg.order == WakeThenStore && Quiet(s, t) && Mirrors(s)
      modifies `avail, fifo
      ensures Reaches(cfg, s, run, s') && OnlyBy(run, t) && Mirrors(s')
      ensures fifo.View().Valid() && avail == fifo.View().Free()
      ensures |out| == TransferLength(count, old(fifo.View()).Used(), bad)
      ensures old(fifo.View()).Contents() == out + fifo.View().Contents()
      ensures t in s'.tasks && s'.tasks[t].pc.Return? && s'.tasks[t].done == out
      ensures result == Returned(s'.tasks[t].Result())
      ensures result == if bad.Some? && bad.value < count && bad.value < old(fifo.View()).Used()
                        then Returned(-EFAULT) else Returned(|out|)
      ensures bad == None ==> |out| == Min(count, old(fifo.View()).Used())
    {
      hide Ring.Valid, Ring.AdvanceIn, Ring.AdvanceOut, Ring.Pushed, Word, TransferLength, TransferError;
      TransferOutcome(count, fifo.View().Used(), bad);
      SplitAt(fifo.View().Contents(), TransferLength(count, fifo.View().Used(), bad));
      var ret;
      ret, out := fifo.ToUser(count, bad);
      avail := fifo.slots.Length - Word(fifo.kin - fifo.kout);
      result := Returned(if ret != 0 then ret else |out|);
      run, s' := ReadAlone(cfg, s, t, count, |out|);
    }

    ghost predicate Counts(s: OpenCount.State)
      reads this
    {
      s.refs == refCntr && s.users == usrsCnt
    }

    /** chardrvs_open */
    method Open(ghost s: OpenCount.State, ghost h: OpenCount.Handle) returns (ret: int)
      requires Counts(s) && s.PhaseOf(h) == OpenCount.Closed
      modifies `refCntr
      ensures ret == 0 <==> old(refCntr) < usrsCnt
      ensures refCntr == if ret == 0 then old(refCntr) + 1 else old(refCntr)
      ensures Counts(OpenAlone(s, h))
      ensures ret == 0 <==> OpenAlone(s, h).PhaseOf(h) == OpenCount.Opened
      ensures ret != 0 ==> ret == -EMFILE
    {
      if refCntr >= usrsCnt {
        return -EMFILE;
      }
      refCntr := refCntr + 1;
      return 0;
    }

    /** chardrvs_release */
    method Release(ghost s: OpenCount.State, ghost h: OpenCount.Handle) returns (ret: int)
      requires Counts(s) && s.PhaseOf(h) == OpenCount.Opened
      modifies `refCntr
      ensures refCntr == if old(refCntr) > 0 then old(refCntr) - 1 else old(refCntr)
      ensures ret == 0 && Counts(ReleaseAlone(s, h)) && ReleaseAlone(s, h).PhaseOf(h) == OpenCount.Closed
    {
      if refCntr > 0 {
        refCntr := refCntr - 1;
      }
      return 0;
    }

    /** The ioctl that sets the limit. The argument is an unsigned long, cut to the width of the field. An unreadable
        one reads as zero and is stored before the error returns. */
    method SetUsers(admin: bool, arg: Option<nat>, ghost s: OpenCount.State) returns (ret: int)
      requires Counts(s)
      modifies `usrsCnt
      ensures ret == if !admin then -EPERM else if arg == None then -EFAULT else 0
      ensures usrsCnt == if !admin then old(usrsCnt) else if arg.Some? then arg.value % WORD else 0
      ensures ret == -EPERM ==> Counts(s)
      ensures ret != -EPERM ==>
        Counts(OpenCount.Apply(s, OpenCount.SetUsers(if arg.Some? then Word(arg.value) else 0)))
      ensures ret == 0 ==> (usrsCnt == arg.value <==> arg.value < WORD)
    {
      if !admin {
        return -EPERM;
      }
      match arg
      case Some(n) =>
        usrsCnt := Word(n);
        ret := 0;
      case None =>
        usrsCnt := 0;
        ret := -EFAULT;
    }
  }
}
