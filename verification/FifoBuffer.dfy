/** The kfifo object: a fixed array and two counters, filled and drained in place. */
module FifoBuffer {
  import opened Words
  import opened Kfifo

  const EFAULT: int := 14
  const EINVAL: int := 22
  const ENOMEM: int := 12
  const EMFILE: int := 24

  class Fifo {
    const slots: array<Byte>
    var kin: nat
    var kout: nat

    function View(): Ring
      reads this, slots
    {
      Ring(slots[..], kin, kout)
    }

    /** kfifo_alloc, for a capacity already rounded up. */
    constructor (capacity: nat)
      requires IsPow2(capacity) && 2 <= capacity <= MAX_CAPACITY
      ensures fresh(slots) && View() == Empty(capacity)
    {
      slots := new Byte[capacity](_ => 0);
      kin, kout := 0, 0;
    }

    /** kfifo_from_user. The user's page becomes unreadable at byte `bad`; what was copied before still enters. */
    method FromUser(buf: seq<Byte>, bad: Option<nat>) returns (ret: int, copied: nat)
      requires View().Valid()
      modifies this, slots
      ensures copied == TransferLength(|buf|, old(View()).Free(), bad)
      ensures ret == TransferError(|buf|, old(View()).Free(), bad)
      ensures View() == old(View()).Pushed(buf[..copied])
      ensures View().Valid() && View().Contents() == old(View()).Contents() + buf[..copied]
    {
      hide Ring.Valid, Ring.Stored, Word, Slot;
      ghost var r := View();
      FreeIsWord(r);
      NothingStored(r, buf);
      var used := Word(kin - kout);
      var n := Min(|buf|, slots.Length - used);
      var k := 0;
      while k < n && bad != Some(k)
        invariant 0 <= k <= n && kin == r.kin && kout == r.kout
        invariant bad.Some? && bad.value < n ==> k <= bad.value
        invariant View() == r.Stored(buf[..k])
        decreases n - k
      {
        StoredNext(r, buf, k);
        slots[Slot(kin + k, slots.Length)] := buf[k];
        k := k + 1;
      }
      kin := Word(kin + k);
      copied := k;
      ret := if k < n then -EFAULT else 0;
      PushAppends(r, buf[..copied]);
    }

    /** kfifo_to_user. The user's page becomes unwritable at byte `bad`; what was copied before still leaves. */
    method ToUser(count: nat, bad: Option<nat>) returns (ret: int, out: seq<Byte>)
      requires View().Valid()
      modifies this
      ensures |out| == TransferLength(count, old(View()).Used(), bad)
      ensures ret == TransferError(count, old(View()).Used(), bad)
      ensures out == old(View()).Contents()[..|out|]
      ensures View() == old(View()).AdvanceOut(|out|)
      ensures View().Valid() && View().Contents() == old(View()).Contents()[|out|..]
    {
      hide Ring.Valid, Word, Slot;
      ghost var r := View();
      FreeIsWord(r);
      var n := Min(count, Word(kin - kout));
      var k := 0;
      out := [];
      while k < n && bad != Some(k)
        invariant 0 <= k <= n && View() == r
        invariant bad.Some? && bad.value < n ==> k <= bad.value
        invariant out == r.Contents()[..k]
        decreases n - k
      {
        ContentsNext(r, k);
        out := out + [slots[Slot(kout + k, slots.Length)]];
        k := k + 1;
      }
      kout := Word(kout + k);
      ret := if k < n then -EFAULT else 0;
      ReleaseDrops(r, k);
    }
  }

  /** How many bytes a transfer of `want` bytes moves when `room` is there and byte `bad` faults: as many as go without
      passing the end, the room or the fault, and it stops only at one of the three. */
  function TransferLength(want: nat, room: int, bad: Option<nat>): (n: int)
    ensures n <= want && n <= room && (bad.Some? ==> n <= bad.value)
    ensures n == want || n == room || bad == Some(n)
    ensures room >= 0 ==> n >= 0
  {
    var n := Min(want, room);
    if bad.Some? && bad.value < n then bad.value else n
  }

  /** -EFAULT exactly if the fault stopped the transfer. */
  function TransferError(want: nat, room: int, bad: Option<nat>): (e: int)
    ensures e == 0 || e == -EFAULT
    ensures e != 0 <==> bad == Some(TransferLength(want, room, bad)) && bad.value < want && bad.value < room
  {
    if bad.Some? && bad.value < Min(want, room) then -EFAULT else 0
  }
}
