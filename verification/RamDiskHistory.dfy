/** What the RAM disk is over whole histories of requests: a flat map of bytes. */
module RamDiskHistory {
  import opened Words
  import opened Kfifo
  import opened RamDisk

  /** The capacity advertised to the block layer, in sectors. */
  const CAPACITY: nat := NR_SECTORS * (512 / SECTOR_SIZE)

  /** The clamp of request_handle takes effect at segment i. */
  predicate ClampsAt(size: nat, start: nat, segs: seq<Segment>, i: nat)
    requires i < |segs|
  {
    start + Clamped(size, start, Total(segs[..i])) + segs[i].len > size
  }

  lemma {:induction false} PrefixTotal(segs: seq<Segment>, i: nat)
    requires i < |segs|
    ensures Total(segs[..i]) + segs[i].len <= Total(segs)
    ensures i + 1 == |segs| ==> Total(segs[..i]) + segs[i].len == Total(segs)
    decreases |segs|
  {
    var t := segs[i + 1..];
    assert segs == segs[..i] + ([segs[i]] + t);
    TotalConcat(segs[..i], [segs[i]] + t);
    assert ([segs[i]] + t)[1..] == t;
    assert i + 1 == |segs| ==> t == [];
  }

  lemma {:induction false} FirstClamp(size: nat, start: nat, segs: seq<Segment>, n: nat) returns (i: nat)
    requires n <= |segs| && start <= size < start + Total(segs[..n])
    ensures i < |segs| && ClampsAt(size, start, segs, i)
  {
    i := n - 1;
    assert segs[..n][..i] == segs[..i];
    PrefixTotal(segs[..n], i);
    if start + Total(segs[..i]) > size {
      i := FirstClamp(size, start, segs, i);
    }
  }

  /** A request is clamped at some segment exactly if it reaches beyond the device. */
  lemma ClampsExactlyBeyondTheEnd(size: nat, start: nat, segs: seq<Segment>)
    requires start <= size
    ensures (exists i :: 0 <= i < |segs| && ClampsAt(size, start, segs, i)) <==> start + Total(segs) > size
  {
    assert segs[..|segs|] == segs;
    if start + Total(segs) > size {
      var i := FirstClamp(size, start, segs, |segs|);
    } else {
      forall i | 0 <= i < |segs|
        ensures !ClampsAt(size, start, segs, i)
      {
        PrefixTotal(segs, i);
      }
    }
  }

  /** Requests within the advertised capacity never are. */
  lemma CapacityNeverClamps(sector: nat, sectors: nat, segs: seq<Segment>, i: nat)
    requires sector + sectors <= CAPACITY && Total(segs) == sectors * SECTOR_SIZE && i < |segs|
    ensures CAPACITY * SECTOR_SIZE == DEV_SIZE
    ensures sector * SECTOR_SIZE <= DEV_SIZE && !ClampsAt(DEV_SIZE, sector * SECTOR_SIZE, segs, i)
  {
    PrefixTotal(segs, i);
  }

  /** Two requests in a row, the second where the first ends, are one request. */
  lemma MergePreserves(disk: seq<Byte>, mem: seq<Byte>, dir: Direction, p: nat, s: seq<Segment>, t: seq<Segment>)
    requires Fits(mem, s) && Fits(mem, t) && p + Total(s) + Total(t) <= |disk|
    ensures Fits(mem, s + t)
    ensures var disk', mem' := DiskAfter(disk, mem, dir, p, s), MemAfter(disk, mem, dir, p, s);
      && |disk'| == |disk| && |mem'| == |mem|
      && DiskAfter(disk, mem, dir, p, s + t) == DiskAfter(disk', mem', dir, p + Total(s), t)
      && MemAfter(disk, mem, dir, p, s + t) == MemAfter(disk', mem', dir, p + Total(s), t)
  {
    hide Overlay, Gather, Scatter, Total, DiskAfter, MemAfter;
    TotalConcat(s, t);
    match dir {
      case WriteDir =>
        WriteUnclamped(disk, mem, p, s);
        WriteUnclamped(Overlay(disk, p, Gather(mem, s)), mem, p + Total(s), t);
        GatherConcat(mem, s, t);
        WriteUnclamped(disk, mem, p, s + t);
        OverlayExtend(disk, p, Gather(mem, s), Gather(mem, t));
      case ReadDir =>
        var m := disk[p..p + Total(s)];
        ReadUnclamped(disk, mem, p, s);
        ReadUnclamped(disk, Scatter(mem, s, m), p + Total(s), t);
        ScatterConcat(mem, s, t, disk[p..p + Total(s) + Total(t)]);
        ReadUnclamped(disk, mem, p, s + t);
        SubSlice(disk, p, Total(s) + Total(t), 0, Total(s));
        SubSlice(disk, p, Total(s) + Total(t), Total(s), Total(s) + Total(t));
    }
  }

  /** A write that stays on the device lays down all its bytes; memory is untouched. */
  lemma WriteUnclamped(disk: seq<Byte>, mem: seq<Byte>, p: nat, s: seq<Segment>)
    requires Fits(mem, s) && p + Total(s) <= |disk|
    ensures DiskAfter(disk, mem, WriteDir, p, s) == Overlay(disk, p, Gather(mem, s))
    ensures MemAfter(disk, mem, WriteDir, p, s) == mem
  {
    hide Overlay, Gather, Total;
    assert Gather(mem, s)[..Total(s)] == Gather(mem, s);
  }

  lemma ReadUnclamped(disk: seq<Byte>, mem: seq<Byte>, p: nat, s: seq<Segment>)
    requires Fits(mem, s) && p + Total(s) <= |disk|
    ensures DiskAfter(disk, mem, ReadDir, p, s) == disk
    ensures MemAfter(disk, mem, ReadDir, p, s) == Scatter(mem, s, disk[p..p + Total(s)])
  {
    hide Scatter, Total;
  }

  // Segmentation

  /** The memory cells a list of segments names, in order. */
  function Cells(segs: seq<Segment>): (c: seq<nat>)
    ensures |c| == Total(segs)
  {
    if segs == [] then [] else Row(segs[0].addr, segs[0].len) + Cells(segs[1..])
  }

  function Row(start: nat, len: nat): (c: seq<nat>)
    ensures |c| == len && forall i :: 0 <= i < len ==> c[i] == start + i
  {
    seq(len, i requires 0 <= i => start + i)
  }

  lemma {:induction false} GatherByCells(mem: seq<Byte>, segs: seq<Segment>, i: nat)
    requires Fits(mem, segs) && i < Total(segs)
    ensures Cells(segs)[i] < |mem| && Gather(mem, segs)[i] == mem[Cells(segs)[i]]
    decreases |segs|
  {
    if i >= segs[0].len {
      GatherByCells(mem, segs[1..], i - segs[0].len);
    }
  }

  /** Which byte of b ends up in cell a: the last one laid out there, else what was there. */
  function Landed(cells: seq<nat>, b: seq<Byte>, a: nat, was: Byte): Byte
    requires |b| <= |cells|
    decreases |b|
  {
    if b == [] then was
    else if cells[|b| - 1] == a then b[|b| - 1] else Landed(cells, b[..|b| - 1], a, was)
  }

  /** Laying out c after b, further along the cells. */
  lemma {:induction false} LandedConcat(x: seq<nat>, y: seq<nat>, b: seq<Byte>, c: seq<Byte>, a: nat, was: Byte)
    requires |b| == |x| && |c| <= |y|
    ensures Landed(x + y, b + c, a, was) == Landed(y, c, a, Landed(x, b, a, was))
    decreases |c|
  {
    if c == [] {
      assert b + c == b;
      LandedPrefix(x, y, b, a, was);
    } else {
      var d := c[..|c| - 1];
      assert (b + c)[..|b + c| - 1] == b + d;
      LandedConcat(x, y, b, d, a, was);
    }
  }

  lemma {:induction false} LandedPrefix(x: seq<nat>, y: seq<nat>, b: seq<Byte>, a: nat, was: Byte)
    requires |b| <= |x|
    ensures Landed(x + y, b, a, was) == Landed(x, b, a, was)
    decreases |b|
  {
    if b != [] {
      LandedPrefix(x, y, b[..|b| - 1], a, was);
    }
  }

  lemma {:induction false} LandedRow(start: nat, len: nat, b: seq<Byte>, a: nat, was: Byte)
    requires |b| <= len
    ensures Landed(Row(start, len), b, a, was)
            == if start <= a < start + |b| then b[a - start] else was
    decreases |b|
  {
    if b != [] {
      LandedRow(start, len, b[..|b| - 1], a, was);
    }
  }

  /** The first row of cells, then the others. */
  lemma LandedHead(segs: seq<Segment>, b: seq<Byte>, a: nat, was: Byte)
    requires segs != [] && |b| <= Total(segs)
    ensures var g, n := segs[0], Min(segs[0].len, |b|);
      && |b[n..]| <= |Cells(segs[1..])|
      && Landed(Cells(segs), b, a, was)
         == Landed(Cells(segs[1..]), b[n..], a, if g.addr <= a < g.addr + n then b[a - g.addr] else was)
  {
    hide Landed;
    var g, n, rest := segs[0], Min(segs[0].len, |b|), Cells(segs[1..]);
    LandedRow(g.addr, g.len, b[..n], a, was);
    assert b[..n] + b[n..] == b;
    if n == g.len {
      LandedConcat(Row(g.addr, g.len), rest, b[..n], b[n..], a, was);
    } else {
      assert b[..n] == b && b[n..] == [];
      LandedPrefix(Row(g.addr, g.len), rest, b, a, was);
      NoneLanded(rest, a, if g.addr <= a < g.addr + n then b[a - g.addr] else was);
    }
  }

  lemma NoneLanded(cells: seq<nat>, a: nat, was: Byte)
    ensures Landed(cells, [], a, was) == was
  {
  }

  lemma {:induction false} ScatterByCells(mem: seq<Byte>, segs: seq<Segment>, b: seq<Byte>, a: nat)
    requires Fits(mem, segs) && |b| <= Total(segs) && a < |mem|
    ensures Scatter(mem, segs, b)[a] == Landed(Cells(segs), b, a, mem[a])
    decreases |segs|
  {
    hide Landed, Scatter, Overlay, Cells;
    if segs == [] {
      ScatterNothing(mem, b);
      NoneLanded(Cells(segs), a, mem[a]);
      assert b == [];
    } else {
      var n := Min(segs[0].len, |b|);
      var m := Overlay(mem, segs[0].addr, b[..n]);
      ScatterHead(mem, segs, b);
      LandedHead(segs, b, a, mem[a]);
      OverlayAt(mem, segs[0].addr, b[..n], a);
      ScatterByCells(m, segs[1..], b[n..], a);
    }
  }

  /** The effect of a request depends on its segments only through the cells they name. */
  lemma SegmentationIsIrrelevant(disk: seq<Byte>, mem: seq<Byte>, dir: Direction, p: nat,
                                 s: seq<Segment>, t: seq<Segment>)
    requires Fits(mem, s) && Fits(mem, t) && p <= |disk| && Cells(s) == Cells(t)
    ensures DiskAfter(disk, mem, dir, p, s) == DiskAfter(disk, mem, dir, p, t)
    ensures MemAfter(disk, mem, dir, p, s) == MemAfter(disk, mem, dir, p, t)
  {
    hide Overlay, Gather, Scatter, Cells, Total;
    assert Total(s) == |Cells(s)| == |Cells(t)| == Total(t);
    forall i | 0 <= i < Total(s)
      ensures Gather(mem, s)[i] == Gather(mem, t)[i]
    {
      GatherByCells(mem, s, i);
      GatherByCells(mem, t, i);
    }
    assert Gather(mem, s) == Gather(mem, t);
    var b := disk[p..p + Clamped(|disk|, p, Total(s))];
    forall a | 0 <= a < |mem|
      ensures Scatter(mem, s, b)[a] == Scatter(mem, t, b)[a]
    {
      ScatterByCells(mem, s, b, a);
      ScatterByCells(mem, t, b, a);
    }
    assert Scatter(mem, s, b) == Scatter(mem, t, b);
  }

  // Histories

  /** A request and the memory at the time it is handled. */
  datatype Request = Request(dir: Direction, pos: nat, segs: seq<Segment>, mem: seq<Byte>) {
    predicate Valid(size: nat) { Fits(mem, segs) && pos <= size }

    /** The request writes the byte at address a. */
    predicate Covers(size: nat, a: nat)
      requires Valid(size)
    {
      dir.WriteDir? && pos <= a < pos + Clamped(size, pos, Total(segs))
    }

    function ByteAt(size: nat, a: nat): Byte
      requires Valid(size) && Covers(size, a)
    {
      Gather(mem, segs)[a - pos]
    }
  }

  predicate AllValid(size: nat, h: seq<Request>) {
    forall i :: 0 <= i < |h| ==> h[i].Valid(size)
  }

  /** The disk after a history. */
  function Replay(disk: seq<Byte>, h: seq<Request>): (d: seq<Byte>)
    requires AllValid(|disk|, h)
    ensures |d| == |disk|
    decreases |h|
  {
    if h == [] then disk
    else
      var r := h[|h| - 1];
      DiskAfter(Replay(disk, h[..|h| - 1]), r.mem, r.dir, r.pos, r.segs)
  }

  /** The value of the last write that covers a, or `was` if none does. */
  function LastWrite(size: nat, h: seq<Request>, a: nat, was: Byte): Byte
    requires AllValid(size, h)
    decreases |h|
  {
    if h == [] then was
    else if h[|h| - 1].Covers(size, a) then h[|h| - 1].ByteAt(size, a)
    else LastWrite(size, h[..|h| - 1], a, was)
  }

  /** One request changes exactly the bytes it covers. */
  lemma RequestAt(disk: seq<Byte>, r: Request, a: nat)
    requires r.Valid(|disk|) && a < |disk|
    ensures DiskAfter(disk, r.mem, r.dir, r.pos, r.segs)[a]
            == if r.Covers(|disk|, a) then r.ByteAt(|disk|, a) else disk[a]
  {
  }

  /** The disk is the flat map of last writes. */
  lemma {:induction false} DiskIsLastWrite(disk: seq<Byte>, h: seq<Request>, a: nat)
    requires AllValid(|disk|, h) && a < |disk|
    ensures Replay(disk, h)[a] == LastWrite(|disk|, h, a, disk[a])
    decreases |h|
  {
    if h != [] {
      var g := h[..|h| - 1];
      DiskIsLastWrite(disk, g, a);
      RequestAt(Replay(disk, g), h[|h| - 1], a);
    }
  }

  predicate Disjoint(segs: seq<Segment>) {
    forall i, j :: 0 <= i < j < |segs| ==>
      segs[i].addr + segs[i].len <= segs[j].addr || segs[j].addr + segs[j].len <= segs[i].addr
  }

  lemma {:induction false} ScatterElsewhere(mem: seq<Byte>, segs: seq<Segment>, b: seq<Byte>, a: nat)
    requires Fits(mem, segs) && a < |mem|
    requires forall i :: 0 <= i < |segs| ==> !(segs[i].addr <= a < segs[i].addr + segs[i].len)
    ensures Scatter(mem, segs, b)[a] == mem[a]
    decreases |segs|
  {
    if segs != [] {
      var n := Min(segs[0].len, |b|);
      assert !(segs[0].addr <= a < segs[0].addr + segs[0].len);
      ScatterElsewhere(Overlay(mem, segs[0].addr, b[..n]), segs[1..], b[n..], a);
    }
  }

  /** What the first segment received is not overwritten by the later ones. */
  lemma HeadKept(mem: seq<Byte>, segs: seq<Segment>, b: seq<Byte>, i: nat)
    requires Fits(mem, segs) && Disjoint(segs) && segs != [] && i < Min(segs[0].len, |b|)
    ensures Scatter(mem, segs, b)[segs[0].addr + i] == b[i]
  {
    hide Scatter, Overlay;
    var g, n := segs[0], Min(segs[0].len, |b|);
    ScatterHead(mem, segs, b);
    var m := Overlay(mem, g.addr, b[..n]);
    OverlayAt(mem, g.addr, b[..n], g.addr + i);
    OthersElsewhere(segs, g.addr + i);
    ScatterElsewhere(m, segs[1..], b[n..], g.addr + i);
  }

  lemma OverlayAt(a: seq<Byte>, p: nat, b: seq<Byte>, i: nat)
    requires p + |b| <= |a| && i < |a|
    ensures Overlay(a, p, b)[i] == if p <= i < p + |b| then b[i - p] else a[i]
  {
  }

  lemma OthersElsewhere(segs: seq<Segment>, a: nat)
    requires Disjoint(segs) && segs != [] && segs[0].addr <= a < segs[0].addr + segs[0].len
    ensures forall j :: 0 <= j < |segs[1..]| ==> !(segs[1..][j].addr <= a < segs[1..][j].addr + segs[1..][j].len)
  {
    forall j | 0 <= j < |segs[1..]|
      ensures !(segs[1..][j].addr <= a < segs[1..][j].addr + segs[1..][j].len)
    {
      assert segs[1..][j] == segs[j + 1];
    }
  }

  /** Bytes laid out over disjoint segments can be gathered again. */
  lemma {:induction false} GatherScatter(mem: seq<Byte>, segs: seq<Segment>, b: seq<Byte>, i: nat)
    requires Fits(mem, segs) && Disjoint(segs) && i < |b| <= Total(segs)
    ensures Gather(Scatter(mem, segs, b), segs)[i] == b[i]
    decreases |segs|
  {
    var g, n := segs[0], Min(segs[0].len, |b|);
    if i < n {
      HeadKept(mem, segs, b, i);
    } else {
      ScatterHead(mem, segs, b);
      GatherScatter(Overlay(mem, g.addr, b[..n]), segs[1..], b[n..], i - n);
    }
  }

  /** From the zeroed disk: a read into disjoint segments returns, byte for byte, the last write, or zero. */
  lemma ReadReturnsLastWrite(h: seq<Request>, mem: seq<Byte>, p: nat, segs: seq<Segment>, i: nat)
    requires AllValid(DEV_SIZE, h) && Fits(mem, segs) && Disjoint(segs)
    requires p <= DEV_SIZE && i < Clamped(DEV_SIZE, p, Total(segs))
    ensures var disk := Replay(seq(DEV_SIZE, _ => 0), h);
      Gather(MemAfter(disk, mem, ReadDir, p, segs), segs)[i] == LastWrite(DEV_SIZE, h, p + i, 0)
  {
    hide Gather, Scatter, Total, LastWrite, Replay;
    var zeros := seq(DEV_SIZE, _ => 0 as Byte);
    var disk := Replay(zeros, h);
    GatherScatter(mem, segs, disk[p..p + Clamped(DEV_SIZE, p, Total(segs))], i);
    DiskIsLastWrite(zeros, h, p + i);
  }

  // Order

  /** No byte is written by two requests. */
  ghost predicate NoOverlap(size: nat, h: seq<Request>)
    requires AllValid(size, h)
  {
    forall i, j, a: nat :: 0 <= i < j < |h| ==> !(h[i].Covers(size, a) && h[j].Covers(size, a))
  }

  /** Then the last write of a byte is its only one, wherever in the history it stands. */
  lemma {:induction false} OnlyWrite(size: nat, h: seq<Request>, k: nat, a: nat, was: Byte)
    requires AllValid(size, h) && NoOverlap(size, h) && k < |h| && h[k].Covers(size, a)
    ensures LastWrite(size, h, a, was) == h[k].ByteAt(size, a)
    decreases |h|
  {
    if k != |h| - 1 {
      assert !h[|h| - 1].Covers(size, a);
      OnlyWrite(size, h[..|h| - 1], k, a, was);
    }
  }

  lemma {:induction false} NoWrite(size: nat, h: seq<Request>, a: nat, was: Byte)
    requires AllValid(size, h) && forall k :: 0 <= k < |h| ==> !h[k].Covers(size, a)
    ensures LastWrite(size, h, a, was) == was
    decreases |h|
  {
    if h != [] {
      NoWrite(size, h[..|h| - 1], a, was);
    }
  }

  lemma TwoPlaces<T>(s: seq<T>, i: nat, j: nat)
    requires i < j < |s|
    ensures multiset{s[i], s[j]} <= multiset(s)
  {
    assert s == s[..i] + [s[i]] + s[i + 1..j] + [s[j]] + s[j + 1..];
  }

  function Rest<T>(s: seq<T>, i: nat): seq<T>
    requires i < |s|
  {
    s[..i] + s[i + 1..]
  }

  lemma RestBag<T>(s: seq<T>, i: nat)
    requires i < |s|
    ensures multiset(s) == multiset(Rest(s, i)) + multiset{s[i]}
  {
    assert s == s[..i] + [s[i]] + s[i + 1..];
  }

  lemma PlacesOf<T>(s: seq<T>, x: T, y: T) returns (i: nat, j: nat)
    requires multiset{x, y} <= multiset(s)
    ensures i < |s| && j < |s| && i != j && s[i] == x && s[j] == y
  {
    assert multiset{x, y}[x] >= 1;
    assert x in s;
    i :| i < |s| && s[i] == x;
    RestBag(s, i);
    assert multiset{x, y} == multiset{x} + multiset{y};
    assert y in multiset(Rest(s, i));
    var k :| 0 <= k < |Rest(s, i)| && Rest(s, i)[k] == y;
    j := if k < i then k else k + 1;
  }

  lemma NoOverlapInAnyOrder(size: nat, g: seq<Request>, h: seq<Request>)
    requires AllValid(size, g) && AllValid(size, h) && multiset(g) == multiset(h) && NoOverlap(size, g)
    ensures NoOverlap(size, h)
  {
    forall i, j, a: nat | 0 <= i < j < |h|
      ensures !(h[i].Covers(size, a) && h[j].Covers(size, a))
    {
      TwoPlaces(h, i, j);
      var k, l := PlacesOf(g, h[i], h[j]);
      assert !(g[k].Covers(size, a) && g[l].Covers(size, a));
    }
  }

  /** Requests that write disjoint bytes leave the same disk in every order. */
  lemma OrderOfDisjointWritesIsIrrelevant(disk: seq<Byte>, g: seq<Request>, h: seq<Request>)
    requires AllValid(|disk|, g) && AllValid(|disk|, h) && multiset(g) == multiset(h)
    requires NoOverlap(|disk|, g)
    ensures Replay(disk, g) == Replay(disk, h)
  {
    var size := |disk|;
    NoOverlapInAnyOrder(size, g, h);
    forall a | 0 <= a < size
      ensures Replay(disk, g)[a] == Replay(disk, h)[a]
    {
      DiskIsLastWrite(disk, g, a);
      DiskIsLastWrite(disk, h, a);
      if k :| 0 <= k < |g| && g[k].Covers(size, a) {
        assert g[k] in multiset(g);
        var l :| 0 <= l < |h| && h[l] == g[k];
        OnlyWrite(size, g, k, a, disk[a]);
        OnlyWrite(size, h, l, a, disk[a]);
      } else {
        NoWrite(size, g, a, disk[a]);
        forall l | 0 <= l < |h|
          ensures !h[l].Covers(size, a)
        {
          assert h[l] in multiset(h) && h[l] in multiset(g);
          var k :| 0 <= k < |g| && g[k] == h[l];
        }
        NoWrite(size, h, a, disk[a]);
      }
    }
  }
}
