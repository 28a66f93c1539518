/**
 The RAM disk's request handler: a loop over the memory segments of a request that clamps at the device end and copies
 in either direction. Segments are windows of one memory, which may overlap.
 */
module RamDisk {
  import opened Words
  import opened Kfifo

  const SECTOR_SIZE: nat := 512
  const NR_SECTORS: nat := 2048
  const DEV_SIZE: nat := NR_SECTORS * SECTOR_SIZE

  datatype Segment = Segment(addr: nat, len: nat)

  datatype Direction = ReadDir | WriteDir

  datatype Status = Ok | IoError

  predicate Fits(mem: seq<Byte>, segs: seq<Segment>) {
    forall i :: 0 <= i < |segs| ==> segs[i].addr + segs[i].len <= |mem|
  }

  function Total(segs: seq<Segment>): nat {
    if segs == [] then 0 else segs[0].len + Total(segs[1..])
  }

  /** b laid over a at position p. */
  function Overlay(a: seq<Byte>, p: nat, b: seq<Byte>): (r: seq<Byte>)
    requires p + |b| <= |a|
    ensures |r| == |a|
    ensures forall i :: 0 <= i < |a| ==> r[i] == if p <= i < p + |b| then b[i - p] else a[i]
  {
    a[..p] + b + a[p + |b|..]
  }

  /** The bytes a list of segments holds, one segment after the other. */
  function Gather(mem: seq<Byte>, segs: seq<Segment>): (g: seq<Byte>)
    requires Fits(mem, segs)
    ensures |g| == Total(segs)
  {
    if segs == [] then [] else mem[segs[0].addr..segs[0].addr + segs[0].len] + Gather(mem, segs[1..])
  }

  /** Bytes laid out over a list of segments, as far as they go. */
  function Scatter(mem: seq<Byte>, segs: seq<Segment>, b: seq<Byte>): (m: seq<Byte>)
    requires Fits(mem, segs)
    ensures |m| == |mem|
    decreases |segs|
  {
    if segs == [] then mem
    else
      var n := Min(segs[0].len, |b|);
      Scatter(Overlay(mem, segs[0].addr, b[..n]), segs[1..], b[n..])
  }

  /** How many bytes a transfer of `total` bytes from `pos` moves on a device of `size` bytes. */
  function Clamped(size: nat, pos: nat, total: nat): int {
    Min(total, size - pos)
  }

  /** What the handler does to the disk. */
  function DiskAfter(disk: seq<Byte>, mem: seq<Byte>, dir: Direction, pos: nat, segs: seq<Segment>): seq<Byte>
    requires Fits(mem, segs) && pos <= |disk|
  {
    if dir.WriteDir? then Overlay(disk, pos, Gather(mem, segs)[..Clamped(|disk|, pos, Total(segs))]) else disk
  }

  /** What the handler does to memory. */
  function MemAfter(disk: seq<Byte>, mem: seq<Byte>, dir: Direction, pos: nat, segs: seq<Segment>): seq<Byte>
    requires Fits(mem, segs) && pos <= |disk|
  {
    if dir.ReadDir? then Scatter(mem, segs, disk[pos..pos + Clamped(|disk|, pos, Total(segs))]) else mem
  }

  lemma {:induction false} TotalConcat(s: seq<Segment>, t: seq<Segment>)
    ensures Total(s + t) == Total(s) + Total(t)
    decreases |s|
  {
    if s == [] {
      assert s + t == t;
    } else {
      assert (s + t)[1..] == s[1..] + t;
      TotalConcat(s[1..], t);
    }
  }

  lemma {:induction false} GatherConcat(mem: seq<Byte>, s: seq<Segment>, t: seq<Segment>)
    requires Fits(mem, s) && Fits(mem, t)
    ensures Fits(mem, s + t) && Gather(mem, s + t) == Gather(mem, s) + Gather(mem, t)
    decreases |s|
  {
    hide Gather;
    if s == [] {
      assert s + t == t;
      GatherNothing(mem);
    } else {
      assert (s + t)[0] == s[0] && (s + t)[1..] == s[1..] + t;
      GatherHead(mem, s + t);
      GatherHead(mem, s);
      GatherConcat(mem, s[1..], t);
      var head := mem[s[0].addr..s[0].addr + s[0].len];
      assert head + (Gather(mem, s[1..]) + Gather(mem, t)) == (head + Gather(mem, s[1..])) + Gather(mem, t);
    }
  }

  lemma GatherNothing(mem: seq<Byte>)
    ensures Gather(mem, []) == []
  {
  }

  lemma GatherHead(mem: seq<Byte>, s: seq<Segment>)
    requires Fits(mem, s) && s != []
    ensures s[0].addr + s[0].len <= |mem| && Fits(mem, s[1..])
    ensures Gather(mem, s) == mem[s[0].addr..s[0].addr + s[0].len] + Gather(mem, s[1..])
  {
  }

  /** Of the first n bytes, the first k, and the rest. */
  lemma Slices(b: seq<Byte>, k: nat, n: nat)
    requires k <= n <= |b|
    ensures b[..n][..k] == b[..k] && b[..n][k..] == b[k..][..n - k] && b[k..][n - k..] == b[n..]
  {
  }

  lemma {:induction false} ScatterConcat(mem: seq<Byte>, s: seq<Segment>, t: seq<Segment>, b: seq<Byte>)
    requires Fits(mem, s) && Fits(mem, t)
    ensures Fits(mem, s + t)
    ensures var n := Min(Total(s), |b|);
      Scatter(mem, s + t, b) == Scatter(Scatter(mem, s, b[..n]), t, b[n..])
    decreases |s|
  {
    hide Overlay, Scatter;
    if s == [] {
      assert s + t == t && b[0..] == b;
      ScatterNothing(mem, b[..0]);
    } else {
      ScatterConcatHead(mem, s, t, b);
      var k := Min(s[0].len, |b|);
      ScatterConcat(Overlay(mem, s[0].addr, b[..k]), s[1..], t, b[k..]);
    }
  }

  /** Both sides of ScatterConcat deal with the first segment alike. */
  lemma ScatterConcatHead(mem: seq<Byte>, s: seq<Segment>, t: seq<Segment>, b: seq<Byte>)
    requires Fits(mem, s) && Fits(mem, t) && s != []
    ensures Fits(mem, s + t) && Fits(mem, s[1..])
    ensures var k, n := Min(s[0].len, |b|), Min(Total(s), |b|);
      && s[0].addr + k <= |mem| && n - k == Min(Total(s[1..]), |b[k..]|)
      && var m := Overlay(mem, s[0].addr, b[..k]);
      && Scatter(mem, s + t, b) == Scatter(m, s[1..] + t, b[k..])
      && Scatter(mem, s, b[..n]) == Scatter(m, s[1..], b[k..][..n - k])
      && b[k..][n - k..] == b[n..]
  {
    hide Overlay, Scatter;
    var k, n := Min(s[0].len, |b|), Min(Total(s), |b|);
    assert (s + t)[0] == s[0] && (s + t)[1..] == s[1..] + t;
    Slices(b, k, n);
    ScatterHead(mem, s + t, b);
    ScatterHead(mem, s, b[..n]);
  }

  lemma ScatterNothing(mem: seq<Byte>, b: seq<Byte>)
    ensures Scatter(mem, [], b) == mem
  {
  }

  lemma ScatterHead(mem: seq<Byte>, s: seq<Segment>, b: seq<Byte>)
    requires Fits(mem, s) && s != []
    ensures var k := Min(s[0].len, |b|);
      && s[0].addr + k <= |mem| && Fits(mem, s[1..])
      && Scatter(mem, s, b) == Scatter(Overlay(mem, s[0].addr, b[..k]), s[1..], b[k..])
  {
    hide Overlay;
  }

  class Disk {
    const data: array<Byte>

    /** kzalloc: the disk starts out zeroed. */
    constructor ()
      ensures fresh(data) && data.Length == DEV_SIZE && data[..] == seq(DEV_SIZE, _ => 0)
    {
      data := new Byte[DEV_SIZE](_ => 0);
    }

    /** request_handle. The block layer keeps the start of a request within the advertised capacity. */
    method RequestHandle(mem: array<Byte>, dir: Direction, sector: nat, segs: seq<Segment>)
      returns (ret: int, pos: nat)
      requires mem != data && Fits(mem[..], segs) && sector * SECTOR_SIZE <= data.Length
      modifies data, mem
      ensures ret == 0
      ensures pos == Min(sector * SECTOR_SIZE + Total(segs), data.Length)
      ensures pos == sector * SECTOR_SIZE + Clamped(data.Length, sector * SECTOR_SIZE, Total(segs)) <= data.Length
      ensures data[..] == DiskAfter(old(data[..]), old(mem[..]), dir, sector * SECTOR_SIZE, segs)
      ensures mem[..] == MemAfter(old(data[..]), old(mem[..]), dir, sector * SECTOR_SIZE, segs)
    {
      hide Handled, DiskAfter, MemAfter, Overlay, Total;
      var start := sector * SECTOR_SIZE;
      pos := start;
      ghost var disk, memory := data[..], mem[..];
      HandledNothing(disk, memory, dir, start, segs);
      for i := 0 to |segs|
        invariant start <= pos <= data.Length
        invariant Handled(disk, memory, dir, start, segs, i, data[..], mem[..], pos)
      {
        var n := segs[i].len;
        if pos + n > data.Length {
          n := data.Length - pos;
        }
        if dir.WriteDir? {
          WriteOneMore(disk, memory, start, segs, i, data[..], mem[..], pos);
          CopyInto(data, pos, mem, segs[i].addr, n);
        } else {
          ReadOneMore(disk, memory, start, segs, i, data[..], mem[..], pos);
          CopyInto(mem, segs[i].addr, data, pos, n);
        }
        pos := pos + n;
      }
      HandledAll(disk, memory, dir, start, segs, data[..], mem[..], pos);
      ret := 0;
    }

    /** ramdisk_blkdev_queue_rq: the handler never fails, so every request ends well. */
    method QueueRq(mem: array<Byte>, dir: Direction, sector: nat, segs: seq<Segment>) returns (status: Status)
      requires mem != data && Fits(mem[..], segs) && sector * SECTOR_SIZE <= data.Length
      modifies data, mem
      ensures status == Ok
      ensures data[..] == DiskAfter(old(data[..]), old(mem[..]), dir, sector * SECTOR_SIZE, segs)
      ensures mem[..] == MemAfter(old(data[..]), old(mem[..]), dir, sector * SECTOR_SIZE, segs)
    {
      var ret, pos := RequestHandle(mem, dir, sector, segs);
      status := if ret != 0 then IoError else Ok;
    }
  }

  /** memcpy between distinct objects. */
  method CopyInto(dst: array<Byte>, at: nat, src: array<Byte>, from: nat, n: nat)
    requires dst != src && at + n <= dst.Length && from + n <= src.Length
    modifies dst
    ensures dst[..] == Overlay(old(dst[..]), at, src[from..from + n])
  {
    for i := 0 to n
      invariant dst[..] == Overlay(old(dst[..]), at, src[from..from + i])
    {
      dst[at + i] := src[from + i];
    }
  }

  /** After i segments the handler stands where a request of just those segments would end. */
  ghost predicate Handled(disk: seq<Byte>, mem: seq<Byte>, dir: Direction, start: nat, segs: seq<Segment>, i: nat,
                          disk': seq<Byte>, mem': seq<Byte>, pos: nat)
    requires Fits(mem, segs) && start <= |disk|
  {
    && i <= |segs| && Fits(mem, segs[..i])
    && pos == start + Clamped(|disk|, start, Total(segs[..i]))
    && disk' == DiskAfter(disk, mem, dir, start, segs[..i])
    && mem' == MemAfter(disk, mem, dir, start, segs[..i])
  }

  lemma HandledNothing(disk: seq<Byte>, mem: seq<Byte>, dir: Direction, start: nat, segs: seq<Segment>)
    requires Fits(mem, segs) && start <= |disk|
    ensures Handled(disk, mem, dir, start, segs, 0, disk, mem, start)
  {
    assert segs[..0] == [];
  }

  lemma HandledAll(disk: seq<Byte>, mem: seq<Byte>, dir: Direction, start: nat, segs: seq<Segment>,
                   disk': seq<Byte>, mem': seq<Byte>, pos: nat)
    requires Fits(mem, segs) && start <= |disk|
    requires Handled(disk, mem, dir, start, segs, |segs|, disk', mem', pos)
    ensures pos == start + Clamped(|disk|, start, Total(segs))
    ensures disk' == DiskAfter(disk, mem, dir, start, segs) && mem' == MemAfter(disk, mem, dir, start, segs)
  {
    assert segs[..|segs|] == segs;
  }

  /** A segment more: what precedes it is unchanged, and it is clamped to what the clamp of the whole leaves. */
  lemma OneMore(mem: seq<Byte>, segs: seq<Segment>, i: nat, room: nat)
    requires Fits(mem, segs) && i < |segs|
    ensures Fits(mem, segs[..i]) && Fits(mem, segs[..i + 1]) && Fits(mem, [segs[i]])
    ensures segs[..i + 1] == segs[..i] + [segs[i]] && Total(segs[..i + 1]) == Total(segs[..i]) + segs[i].len
    ensures var k := Min(Total(segs[..i]), room);
      Min(Total(segs[..i + 1]), room) == k + Min(segs[i].len, room - k)
  {
    var s, t := segs[..i], [segs[i]];
    assert segs[..i + 1] == s + t;
    TotalConcat(s, t);
    assert Total(t) == segs[i].len + Total(t[1..]);
  }

  lemma OverlayExtend(a: seq<Byte>, p: nat, b: seq<Byte>, c: seq<Byte>)
    requires p + |b| + |c| <= |a|
    ensures Overlay(Overlay(a, p, b), p + |b|, c) == Overlay(a, p, b + c)
  {
  }

  /** The first k + n elements, where the first part is not exceeded or nothing more is taken. */
  lemma TakeConcat(g: seq<Byte>, w: seq<Byte>, k: nat, n: nat)
    requires k <= |g| && n <= |w| && (k == |g| || n == 0)
    ensures (g + w)[..k + n] == g[..k] + w[..n]
  {
  }

  lemma SubSlice(b: seq<Byte>, p: nat, len: nat, i: nat, j: nat)
    requires p + len <= |b| && i <= j <= len
    ensures b[p..p + len][i..j] == b[p + i..p + j]
  {
    var c, d := b[p..p + len][i..j], b[p + i..p + j];
    assert |c| == |d|;
    forall k | 0 <= k < |c|
      ensures c[k] == d[k]
    {
      assert c[k] == b[p + (i + k)];
    }
  }

  lemma WriteOneMore(disk: seq<Byte>, mem: seq<Byte>, start: nat, segs: seq<Segment>, i: nat,
                     disk': seq<Byte>, mem': seq<Byte>, pos: nat)
    requires Fits(mem, segs) && start <= |disk| && i < |segs|
    requires Handled(disk, mem, WriteDir, start, segs, i, disk', mem', pos)
    ensures |disk'| == |disk| && mem' == mem
    ensures var n, a := Min(segs[i].len, |disk| - pos), segs[i].addr;
      && n >= 0 && a + n <= |mem| && pos + n <= |disk|
      && Handled(disk, mem, WriteDir, start, segs, i + 1, Overlay(disk', pos, mem[a..a + n]), mem', pos + n)
  {
    hide Total, Gather, Overlay;
    var n, a, s := Min(segs[i].len, |disk| - pos), segs[i].addr, segs[..i];
    OneMore(mem, segs, i, |disk| - start);
    GatherConcat(mem, s, [segs[i]]);
    GatherOne(mem, segs[i]);
    var g := Gather(mem, s);
    TakeConcat(g, mem[a..a + segs[i].len], pos - start, n);
    SubSlice(mem, a, segs[i].len, 0, n);
    assert mem[a..a + segs[i].len][..n] == mem[a..a + segs[i].len][0..n];
    OverlayExtend(disk, start, g[..pos - start], mem[a..a + n]);
  }

  lemma GatherOne(mem: seq<Byte>, g: Segment)
    requires Fits(mem, [g])
    ensures g.addr + g.len <= |mem| && Gather(mem, [g]) == mem[g.addr..g.addr + g.len]
  {
    hide Gather;
    GatherHead(mem, [g]);
    GatherNothing(mem);
    assert [g][1..] == [];
  }

  lemma ScatterOne(mem: seq<Byte>, g: Segment, b: seq<Byte>)
    requires Fits(mem, [g]) && |b| <= g.len
    ensures g.addr + |b| <= |mem| && Scatter(mem, [g], b) == Overlay(mem, g.addr, b)
  {
    hide Scatter, Overlay;
    ScatterHead(mem, [g], b);
    assert [g][1..] == [] && b[..|b|] == b;
    ScatterNothing(Overlay(mem, g.addr, b), b[|b|..]);
  }

  lemma ReadOneMore(disk: seq<Byte>, mem: seq<Byte>, start: nat, segs: seq<Segment>, i: nat,
                    disk': seq<Byte>, mem': seq<Byte>, pos: nat)
    requires Fits(mem, segs) && start <= |disk| && i < |segs|
    requires Handled(disk, mem, ReadDir, start, segs, i, disk', mem', pos)
    ensures disk' == disk && |mem'| == |mem|
    ensures var n, a := Min(segs[i].len, |disk| - pos), segs[i].addr;
      && n >= 0 && a + n <= |mem| && pos + n <= |disk|
      && Handled(disk, mem, ReadDir, start, segs, i + 1, disk', Overlay(mem', a, disk[pos..pos + n]), pos + n)
  {
    hide Total, Scatter, Overlay;
    var n, a, s := Min(segs[i].len, |disk| - pos), segs[i].addr, segs[..i];
    OneMore(mem, segs, i, |disk| - start);
    var all := disk[start..pos + n];
    ScatterConcat(mem, s, [segs[i]], all);
    assert Min(Total(s), |all|) == pos - start;
    SubSlice(disk, start, |all|, 0, pos - start);
    SubSlice(disk, start, |all|, pos - start, |all|);
    ScatterOne(mem', segs[i], disk[pos..pos + n]);
  }
}
