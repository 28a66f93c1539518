/**
 The kernel's byte ring, by its documented contract: a power-of-two array of slots and two free-running
 `unsigned int` counters that are reduced to a slot only when a slot is touched.
 */
module Kfifo {
  import opened Words

  newtype Byte = b: int | 0 <= b < 256

  const MAX_CAPACITY: nat := 0x8000_0000

  datatype Ring = Ring(slots: seq<Byte>, kin: nat, kout: nat) {
    function Size(): nat { |slots| }

    /** The counters subtract as unsigned words. */
    function Used(): nat { Word(kin - kout) }

    function Free(): int { Size() - Used() }

    ghost predicate Valid() {
      && IsPow2(Size()) && 2 <= Size() <= MAX_CAPACITY
      && kin < WORD && kout < WORD
      && Used() <= Size()
    }

    function At(i: nat): Byte
      requires Size() > 0
    {
      slots[Slot(i, Size())]
    }

    /** The queued bytes, oldest first, read off the slots through the wrapped `out` counter. */
    ghost function Contents(): (q: seq<Byte>)
      requires Valid()
      ensures |q| == Used()
      ensures forall i :: 0 <= i < |q| ==> q[i] == At(kout + i)
    {
      seq(Used(), i requires 0 <= i < Used() => At(kout + i))
    }

    /** Puts a byte j places past the `in` counter without publishing it. */
    function StoreAt(j: nat, b: Byte): Ring
      requires Size() > 0
    {
      this.(slots := slots[Slot(kin + j, Size()) := b])
    }

    function AdvanceIn(n: nat): Ring { this.(kin := Word(kin + n)) }

    function AdvanceOut(n: nat): Ring { this.(kout := Word(kout + n)) }

    /** The bytes of p sit just past the `in` counter, not yet published. */
    ghost predicate Staged(p: seq<Byte>)
      requires Size() > 0
    {
      forall j :: 0 <= j < |p| ==> At(kin + j) == p[j]
    }

    /** Storing the bytes of p one after the other. */
    function Stored(p: seq<Byte>): (r: Ring)
      requires Size() > 0
      ensures r.Size() == Size() && r.kin == kin && r.kout == kout
      decreases |p|
    {
      if p == [] then this else Stored(p[..|p| - 1]).StoreAt(|p| - 1, p[|p| - 1])
    }

    /** A transfer into the ring: store the bytes, then publish them. */
    function Pushed(p: seq<Byte>): Ring
      requires Size() > 0
    {
      Stored(p).AdvanceIn(|p|)
    }
  }

  /** kfifo_avail, as a word, of two counters that may have been read at different times. */
  function FreeBetween(size: nat, i: nat, o: nat): (f: nat)
    ensures f < WORD
  {
    Word(size - (i - o))
  }

  lemma FreeIsWord(r: Ring)
    requires r.Valid()
    ensures 0 < r.Size() && 0 <= r.Free() <= r.Size() < WORD
  {
    hide Ring.Used;
  }

  /** Read at one time, the two counters give the free space. */
  lemma FreeAtOnce(r: Ring)
    requires r.Valid()
    ensures FreeBetween(r.Size(), r.kin, r.kout) == r.Free()
  {
    UniqueRemainder(r.Size() - (r.kin - r.kout), -((r.kin - r.kout) / WORD), r.Free(), WORD);
  }

  /** What advancing one counter does to the count that the other, read before, leads to. */
  lemma FreeBetweenAdvanced(size: nat, i: nat, o: nat, n: nat)
    ensures FreeBetween(size, Word(i + n), o) == Word(FreeBetween(size, i, o) - n)
    ensures FreeBetween(size, i, Word(o + n)) == Word(FreeBetween(size, i, o) + n)
  {
    AfterWrites(size, i, o, n);
    AfterReads(size, i, o, n);
  }

  lemma AfterWrites(size: nat, i: nat, o: nat, n: nat)
    ensures Word(size - (Word(i + n) - o)) == Word(Word(size - (i - o)) - n)
  {
    var free := size - (i - o);
    SameWord(size - (Word(i + n) - o), free - n, (i + n) / WORD);
    SameWord(free - n, Word(free) - n, free / WORD);
  }

  lemma AfterReads(size: nat, i: nat, o: nat, n: nat)
    ensures Word(size - (i - Word(o + n))) == Word(Word(size - (i - o)) + n)
  {
    var free := size - (i - o);
    SameWord(size - (i - Word(o + n)), free + n, -((o + n) / WORD));
    SameWord(free + n, Word(free) + n, free / WORD);
  }

  lemma SameWord(x: int, y: int, c: int)
    requires x == y + c * WORD
    ensures Word(x) == Word(y)
  {
    ModAddMultiple(y, c, WORD);
  }

  /** kfifo_alloc: the capacity is rounded up to a power of two. */
  function Empty(size: nat): Ring {
    Ring(seq(size, _ => 0), 0, 0)
  }

  lemma EmptyIsValid(size: nat)
    requires IsPow2(size) && 2 <= size <= MAX_CAPACITY
    ensures Empty(size).Valid() && Empty(size).Contents() == [] && Empty(size).Free() == size
  {
  }

  /** The j-th place past `in` is the slot j places after the queued bytes. */
  lemma InFollowsContents(r: Ring, j: nat)
    requires r.Valid()
    ensures Slot(r.kin + j, r.Size()) == Slot(r.kout + r.Used() + j, r.Size())
  {
    DividesWord(r.Size());
    assert (r.kin + j) - (r.kout + r.Used() + j) == (r.kin - r.kout) / WORD * WORD;
    ModAddMultiple(0, (r.kin - r.kout) / WORD, WORD);
    SameModulo(r.kin + j, r.kout + r.Used() + j, r.Size());
  }

  /** Advancing a counter modulo the word keeps the slot it stands for. */
  lemma AdvanceKeepsSlot(c: nat, n: nat, i: nat, size: nat)
    requires IsPow2(size) && 0 < size <= MAX_CAPACITY
    ensures Slot(Word(c + n) + i, size) == Slot(c + n + i, size)
  {
    DividesWord(size);
    assert (Word(c + n) + i) - (c + n + i) == -((c + n) / WORD) * WORD;
    ModAddMultiple(0, -((c + n) / WORD), WORD);
    SameModulo(Word(c + n) + i, c + n + i, size);
  }

  /** The slot j places past `in` is none of the i-th queued byte, nor of another place past `in`. */
  lemma StoreElsewhere(r: Ring, j: nat, i: nat)
    requires r.Valid() && j < r.Free()
    ensures i < r.Used() ==> Slot(r.kin + j, r.Size()) != Slot(r.kout + i, r.Size())
    ensures i < j ==> Slot(r.kin + j, r.Size()) != Slot(r.kin + i, r.Size())
  {
    InFollowsContents(r, j);
    if i < r.Used() {
      DistinctSlots(r.kout + r.Used() + j, r.kout + i, r.Size());
    }
    if i < j {
      DistinctSlots(r.kin + j, r.kin + i, r.Size());
    }
  }

  lemma StoreKeepsContents(r: Ring, j: nat, b: Byte)
    requires r.Valid() && j < r.Free()
    ensures var r' := r.StoreAt(j, b);
      r'.Valid() && r'.Contents() == r.Contents() && r'.Free() == r.Free()
  {
    var r' := r.StoreAt(j, b);
    forall i | 0 <= i < r.Used()
      ensures r'.Contents()[i] == r.Contents()[i]
    {
      StoreElsewhere(r, j, i);
    }
    assert r'.Contents() == r.Contents();
  }

  /** Writing past `in` within the free space leaves the queued and the already staged bytes alone. */
  lemma StoreKeeps(r: Ring, p: seq<Byte>, b: Byte)
    requires r.Valid() && |p| < r.Free() && r.Staged(p)
    ensures var r' := r.StoreAt(|p|, b);
      r'.Valid() && r'.Contents() == r.Contents() && r'.Staged(p + [b]) && r'.Free() == r.Free()
  {
    hide Ring.Used, Ring.Free;
    var r' := r.StoreAt(|p|, b);
    StoreKeepsContents(r, |p|, b);
    forall j | 0 <= j < |p + [b]|
      ensures r'.At(r'.kin + j) == (p + [b])[j]
    {
      StoreElsewhere(r, |p|, j);
    }
  }

  /** Publishing staged bytes appends exactly them. */
  lemma PublishAppends(r: Ring, p: seq<Byte>)
    requires r.Valid() && |p| <= r.Free() && r.Staged(p)
    ensures var r' := r.AdvanceIn(|p|);
      r'.Valid() && r'.Contents() == r.Contents() + p && r'.Free() == r.Free() - |p|
  {
    hide Ring.Used, Ring.Staged, Word, Slot;
    var r' := r.AdvanceIn(|p|);
    PublishCounts(r, |p|);
    forall i | 0 <= i < |r'.Contents()|
      ensures r'.Contents()[i] == (r.Contents() + p)[i]
    {
      if i >= |r.Contents()| {
        StagedSlot(r, p, i - |r.Contents()|);
      }
    }
  }

  lemma PublishCounts(r: Ring, n: nat)
    requires r.Valid() && n <= r.Free()
    ensures r.AdvanceIn(n).Valid() && r.AdvanceIn(n).Used() == r.Used() + n
  {
    UsedAfter(r.kin, n, r.kout);
  }

  lemma StagedSlot(r: Ring, p: seq<Byte>, j: nat)
    requires r.Valid() && r.Staged(p) && j < |p|
    ensures r.At(r.kout + (r.Used() + j)) == p[j]
  {
    InFollowsContents(r, j);
    assert r.At(r.kin + j) == p[j];
  }

  lemma UsedAfter(i: nat, n: nat, o: nat)
    requires i < WORD && o < WORD && Word(i - o) + n < WORD
    ensures Word(Word(i + n) - o) == Word(i - o) + n
  {
    var q := (i + n) / WORD - (i - o) / WORD;
    assert Word(i + n) - o == -q * WORD + (Word(i - o) + n);
    UniqueRemainder(Word(i + n) - o, -q, Word(i - o) + n, WORD);
  }

  lemma UsedBefore(i: nat, n: nat, o: nat)
    requires i < WORD && o < WORD && n <= Word(i - o)
    ensures Word(i - Word(o + n)) == Word(i - o) - n
  {
    var q := (i - o) / WORD + (o + n) / WORD;
    assert i - Word(o + n) == q * WORD + (Word(i - o) - n);
    UniqueRemainder(i - Word(o + n), q, Word(i - o) - n, WORD);
  }

  /** Releasing n bytes drops exactly the oldest n, and what a writer has staged stays staged. */
  lemma ReleaseDrops(r: Ring, n: nat)
    requires r.Valid() && n <= r.Used()
    ensures var r' := r.AdvanceOut(n);
      r'.Valid() && r'.Contents() == r.Contents()[n..] && r'.Free() == r.Free() + n
  {
    hide Ring.Used, Word, Slot;
    var r' := r.AdvanceOut(n);
    ReleaseCounts(r, n);
    forall i | 0 <= i < |r'.Contents()|
      ensures r'.Contents()[i] == r.Contents()[n..][i]
    {
      ReleasedSlot(r, n, i);
    }
  }

  lemma ReleaseCounts(r: Ring, n: nat)
    requires r.Valid() && n <= r.Used()
    ensures r.AdvanceOut(n).Valid() && r.AdvanceOut(n).Used() == r.Used() - n
  {
    UsedBefore(r.kin, n, r.kout);
  }

  lemma ReleasedSlot(r: Ring, n: nat, i: nat)
    requires r.Valid()
    ensures var r' := r.AdvanceOut(n); r'.At(r'.kout + i) == r.At(r.kout + (n + i))
  {
    AdvanceKeepsSlot(r.kout, n, i, r.Size());
  }

  /** Storing within the free space stages the bytes and keeps the queue. */
  lemma {:induction false} StoredStages(r: Ring, p: seq<Byte>)
    requires r.Valid() && |p| <= r.Free()
    ensures var r' := r.Stored(p);
      r'.Valid() && r'.Contents() == r.Contents() && r'.Staged(p) && r'.Free() == r.Free()
    decreases |p|
  {
    if p != [] {
      var q := p[..|p| - 1];
      StoredStages(r, q);
      StoreKeeps(r.Stored(q), q, p[|p| - 1]);
      assert q + [p[|p| - 1]] == p;
    }
  }

  lemma NothingStored(r: Ring, buf: seq<Byte>)
    requires r.Size() > 0
    ensures r.Stored(buf[..0]) == r
  {
  }

  /** The next byte of a transfer. */
  lemma StoredNext(r: Ring, buf: seq<Byte>, k: nat)
    requires r.Size() > 0 && k < |buf|
    ensures r.Stored(buf[..k + 1]) == r.Stored(buf[..k]).StoreAt(k, buf[k])
  {
    assert buf[..k + 1][..k] == buf[..k];
  }

  /** The oldest bytes, one more of them. */
  lemma ContentsNext(r: Ring, k: nat)
    requires r.Valid() && k < r.Used()
    ensures r.Contents()[..k + 1] == r.Contents()[..k] + [r.At(r.kout + k)]
  {
  }

  /** A whole transfer into the ring appends exactly the bytes transferred, wherever the counters wrap. */
  lemma PushAppends(r: Ring, p: seq<Byte>)
    requires r.Valid() && |p| <= r.Free()
    ensures r.Pushed(p).Valid() && r.Pushed(p).Contents() == r.Contents() + p
    ensures r.Pushed(p).Size() == r.Size()
  {
    StoredStages(r, p);
    PublishAppends(r.Stored(p), p);
  }
}
