/**
 Binding of platform devices: probe acquires a device node, a character device, a FIFO and a sysfs group in turn and
 unwinds what it has when a stage fails; remove gives all four back; device numbers come from a counter.
 */
module PlatformDriver {
  import opened Words
  import opened FifoBuffer

  type Pdev = nat

  datatype PlatformData = PlatformData(version: int, fsize: int)

  /** What the device tree yields: no node, an error, or the two properties. */
  datatype Parsed = NoNode | NoMemory | BadProperty | Properties(data: PlatformData)

  /** How a device is described: by a matching device-tree node, or by a board file with an id. */
  datatype Description = DeviceTree(parsed: Parsed) | Board(id: int, data: Option<PlatformData>)

  /** What the kernel answers at each stage: memory or not, and an error code or 0 for the other four. */
  datatype Stages = Stages(memory: bool, node: int, cdev: int, fifo: int, group: int)

  function Take<T(==)>(m: multiset<T>, x: T): multiset<T> { m + multiset{x} }

  function Give<T(==)>(m: multiset<T>, x: T): multiset<T> { m - multiset{x} }

  lemma GiveTake<T>(m: multiset<T>, x: T)
    ensures Give(Take(m, x), x) == m
  {
  }

  lemma TakeCount<T>(m: multiset<T>, x: T)
    ensures forall y :: Take(m, x)[y] == m[y] + if y == x then 1 else 0
  {
  }

  lemma GiveCount<T>(m: multiset<T>, x: T)
    requires x in m
    ensures forall y :: Give(m, x)[y] == m[y] - if y == x then 1 else 0
  {
  }

  lemma TakeNew<T>(keys: set<T>, x: T)
    requires x !in keys
    ensures Take(multiset(keys), x) == multiset(keys + {x})
  {
  }

  lemma GiveOld<T>(keys: set<T>, x: T)
    requires x in keys
    ensures Give(multiset(keys), x) == multiset(keys - {x})
  {
  }

  /** `order` records the bound devices, oldest first; no step reads it. */
  datatype State = State(
    base: int, probed: int,
    nodes: multiset<int>, cdevs: multiset<Pdev>, fifos: multiset<Pdev>, groups: multiset<Pdev>,
    number: map<Pdev, int>, order: seq<Pdev>)
  {
    function NextNumber(how: Description): int { base + if how.DeviceTree? then probed else how.id }

    function Bind(dev: Pdev, n: int): State {
      this.(probed := probed + 1,
            nodes := Take(nodes, n), cdevs := Take(cdevs, dev), fifos := Take(fifos, dev), groups := Take(groups, dev),
            number := number[dev := n], order := order + [dev])
    }

    function Unbind(dev: Pdev): State
      requires dev in number
    {
      this.(probed := probed - 1,
            nodes := Give(nodes, number[dev]), cdevs := Give(cdevs, dev),
            fifos := Give(fifos, dev), groups := Give(groups, dev),
            number := number - {dev}, order := Without(order, dev))
    }
  }

  function Without(s: seq<Pdev>, d: Pdev): seq<Pdev> {
    if s == [] then [] else if s[0] == d then s[1..] else [s[0]] + Without(s[1..], d)
  }

  /** Every device-tree error is reported as a lack of memory; a description without data is invalid. */
  function DescriptionResult(how: Description): int {
    match how
    case DeviceTree(NoMemory) => -ENOMEM
    case DeviceTree(BadProperty) => -ENOMEM
    case DeviceTree(NoNode) => -EINVAL
    case DeviceTree(Properties(_)) => 0
    case Board(_, data) => if data == None then -EINVAL else 0
  }

  /** The first stage that fails, or 0. */
  function StagesResult(k: Stages): int {
    if !k.memory then -EINVAL
    else if k.node != 0 then k.node
    else if k.cdev != 0 then k.cdev
    else if k.fifo != 0 then k.fifo
    else k.group
  }

  function ProbeResult(how: Description, k: Stages): int {
    if DescriptionResult(how) != 0 then DescriptionResult(how) else StagesResult(k)
  }

  class Driver {
    const base: int
    var probed: int
    var nodes: multiset<int>
    var cdevs: multiset<Pdev>
    var fifos: multiset<Pdev>
    var groups: multiset<Pdev>
    /** Number of each bound device, kept in its driver data. */
    var number: map<Pdev, int>
    ghost var order: seq<Pdev>

    ghost function View(): State
      reads this
    {
      State(base, probed, nodes, cdevs, fifos, groups, number, order)
    }

    constructor (base: int)
      ensures View() == Init(base)
    {
      this.base := base;
      probed, nodes, cdevs, fifos, groups := 0, multiset{}, multiset{}, multiset{}, multiset{};
      number, order := map[], [];
    }

    /** The part of pltdrv_probe that reads the description: the data, and the number the device is to have. */
    method Identify(how: Description) returns (ret: int, dataId: int)
      ensures ret == 0 <==> if how.DeviceTree? then how.parsed.Properties? else how.data.Some?
      ensures dataId == if how.DeviceTree? then probed else how.id
      ensures ret == DescriptionResult(how) && base + dataId == View().NextNumber(how)
    {
      match how
      case DeviceTree(parsed) =>
        dataId := probed;
        match parsed {
          case NoMemory => ret := -ENOMEM;
          case BadProperty => ret := -ENOMEM;
          case NoNode => ret := -EINVAL;
          case Properties(_) => ret := 0;
        }
      case Board(id, data) =>
        dataId := id;
        ret := if data == None then -EINVAL else 0;
    }

    /** The four stages of pltdrv_probe, each failure undoing the stages before it in reverse order. */
    method Acquire(dev: Pdev, devnr: int, k: Stages) returns (ret: int)
      requires k.memory && k.node == 0
      modifies `nodes, `cdevs, `fifos, `groups
      ensures ret == StagesResult(k)
      ensures ret == 0 <==> k.cdev == 0 && k.fifo == 0 && k.group == 0
      ensures k.cdev != 0 ==> ret == k.cdev
      ensures k.cdev == 0 && k.fifo != 0 ==> ret == k.fifo
      ensures k.cdev == 0 && k.fifo == 0 && k.group != 0 ==> ret == k.group
      ensures ret == 0 ==> nodes == Take(old(nodes), devnr) && cdevs == Take(old(cdevs), dev)
                           && fifos == Take(old(fifos), dev) && groups == Take(old(groups), dev)
      ensures ret != 0 ==> nodes == old(nodes) && cdevs == old(cdevs) && fifos == old(fifos) && groups == old(groups)
    {
      hide Take, Give;
      GiveTake(nodes, devnr);
      GiveTake(cdevs, dev);
      GiveTake(fifos, dev);
      nodes := Take(nodes, devnr);
      ret := k.cdev;
      if ret == 0 {
        cdevs := Take(cdevs, dev);
        ret := k.fifo;
        if ret == 0 {
          fifos := Take(fifos, dev);
          ret := k.group;
          if ret == 0 {
            groups := Take(groups, dev);
            return;
          }
          fifos := Give(fifos, dev);
        }
        cdevs := Give(cdevs, dev);
      }
      nodes := Give(nodes, devnr);
    }

    /** pltdrv_probe. A failed probe leaves nothing behind. */
    method Probe(dev: Pdev, how: Description, k: Stages) returns (ret: int)
      requires dev !in number
      modifies this
      ensures ret == ProbeResult(how, k)
      ensures ret == 0 <==> (if how.DeviceTree? then how.parsed.Properties? else how.data.Some?)
                            && k.memory && k.node == 0 && k.cdev == 0 && k.fifo == 0 && k.group == 0
      ensures ret == 0 ==> dev in number && probed == old(probed) + 1
                           && number[dev] == base + if how.DeviceTree? then old(probed) else how.id
      ensures ret == 0 ==> View() == old(View()).Bind(dev, old(View()).NextNumber(how))
      ensures ret != 0 ==> View() == old(View())
    {
      hide Take, Give, DescriptionResult, StagesResult, ProbeResult;
      EarlyStages(how, k);
      var dataId;
      ret, dataId := Identify(how);
      if ret != 0 {
        return;
      }
      if !k.memory {
        return -EINVAL;
      }
      if k.node != 0 {
        return k.node;
      }
      ret := Acquire(dev, base + dataId, k);
      if ret == 0 {
        Count(dev, base + dataId);
      }
    }

    /** The end of a successful probe. */
    method Count(dev: Pdev, devnr: int)
      modifies `probed, `number, `order
      ensures probed == old(probed) + 1 && number == old(number)[dev := devnr] && order == old(order) + [dev]
    {
      probed, number, order := probed + 1, number[dev := devnr], order + [dev];
    }

    /** pltdrv_remove. It leaves the driver as it was before the device was bound, if nothing came in between. */
    method Remove(dev: Pdev) returns (ret: int)
      requires dev in number
      modifies this
      ensures ret == 0 && View() == old(View()).Unbind(dev)
      ensures forall s: State :: OrderListsBound(s) && dev !in s.number && old(View()) == s.Bind(dev, old(number[dev]))
                                 ==> View() == s
    {
      hide Take, Give, OrderListsBound, Without;
      forall s: State | OrderListsBound(s) && dev !in s.number && View() == s.Bind(dev, number[dev])
        ensures View().Unbind(dev) == s
      {
        UnbindUndoesBind(s, dev, number[dev]);
      }
      groups := Give(groups, dev);
      fifos := Give(fifos, dev);
      cdevs := Give(cdevs, dev);
      nodes := Give(nodes, number[dev]);
      probed := probed - 1;
      number := number - {dev};
      order := Without(order, dev);
      return 0;
    }
  }

  // Runs

  datatype Event = Probe(dev: Pdev, how: Description, stages: Stages) | Remove(dev: Pdev)

  function Init(base: int): State {
    State(base, 0, multiset{}, multiset{}, multiset{}, multiset{}, map[], [])
  }

  /** The driver core probes devices that are not bound and removes those that are. */
  predicate Enabled(s: State, e: Event) {
    if e.Probe? then e.dev !in s.number else e.dev in s.number
  }

  function Apply(s: State, e: Event): State
    requires Enabled(s, e)
  {
    match e
    case Probe(dev, how, k) => if ProbeResult(how, k) == 0 then s.Bind(dev, s.NextNumber(how)) else s
    case Remove(dev) => s.Unbind(dev)
  }

  predicate Enables(s: State, run: seq<Event>)
    decreases |run|
  {
    run != [] ==> Enabled(s, run[0]) && Enables(Apply(s, run[0]), run[1..])
  }

  function After(s: State, run: seq<Event>): State
    requires Enables(s, run)
    decreases |run|
  {
    if run == [] then s else After(Apply(s, run[0]), run[1..])
  }

  // The outcome of a probe

  /** A description with data, and no stage of the kernel fails. */
  predicate AllWell(how: Description, k: Stages) {
    && (match how
        case DeviceTree(parsed) => parsed.Properties?
        case Board(_, data) => data.Some?)
    && k.memory && k.node == 0 && k.cdev == 0 && k.fifo == 0 && k.group == 0
  }

  /** How far the outcome is decided before the stages that need unwinding. */
  lemma EarlyStages(how: Description, k: Stages)
    ensures DescriptionResult(how) != 0 ==> ProbeResult(how, k) == DescriptionResult(how)
    ensures DescriptionResult(how) == 0 ==> ProbeResult(how, k) == StagesResult(k)
    ensures !k.memory ==> StagesResult(k) == -EINVAL
    ensures k.memory && k.node != 0 ==> StagesResult(k) == k.node
  {
  }

  /** A probe succeeds exactly if all is well; otherwise it returns the code of the first thing that is not, with every
      device-tree error turned into a lack of memory and a lack of memory for the device into an invalid argument. */
  lemma ProbeReports(how: Description, k: Stages)
    ensures ProbeResult(how, k) == 0 <==> AllWell(how, k)
    ensures how == DeviceTree(NoMemory) || how == DeviceTree(BadProperty) ==> ProbeResult(how, k) == -ENOMEM
    ensures how == DeviceTree(NoNode) || (how.Board? && how.data == None) ==> ProbeResult(how, k) == -EINVAL
    ensures var described := if how.DeviceTree? then how.parsed.Properties? else how.data.Some?;
      described ==>
        && (!k.memory ==> ProbeResult(how, k) == -EINVAL)
        && (k.memory && k.node != 0 ==> ProbeResult(how, k) == k.node)
        && (k.memory && k.node == 0 && k.cdev != 0 ==> ProbeResult(how, k) == k.cdev)
        && (k.memory && k.node == k.cdev == 0 && k.fifo != 0 ==> ProbeResult(how, k) == k.fifo)
        && (k.memory && k.node == k.cdev == k.fifo == 0 ==> ProbeResult(how, k) == k.group)
  {
  }

  /** Whether a device is bound, told from the events alone: its last probe that went well has no removal behind it. */
  predicate BoundBy(run: seq<Event>, d: Pdev) {
    run != [] &&
    var before, e := run[..|run| - 1], run[|run| - 1];
    if e.dev != d then BoundBy(before, d)
    else e.Probe? && (AllWell(e.how, e.stages) || BoundBy(before, d))
  }

  /** How many devices are. */
  function Surplus(run: seq<Event>): int {
    if run == [] then 0
    else
      var e := run[|run| - 1];
      Surplus(run[..|run| - 1]) + if e.Remove? then -1 else if AllWell(e.how, e.stages) then 1 else 0
  }

  /** The number that the last successful probe of d gave it. */
  function NumberBy(base: int, run: seq<Event>, d: Pdev): int {
    if run == [] then 0
    else
      var before, e := run[..|run| - 1], run[|run| - 1];
      if e.dev == d && e.Probe? && AllWell(e.how, e.stages)
      then base + if e.how.DeviceTree? then Surplus(before) else e.how.id
      else NumberBy(base, before, d)
  }

  lemma {:induction false} SplitRun(s: State, run: seq<Event>)
    requires run != [] && Enables(s, run)
    ensures var before, e := run[..|run| - 1], run[|run| - 1];
      Enables(s, before) && Enabled(After(s, before), e) && After(s, run) == Apply(After(s, before), e)
    decreases |run|
  {
    hide Enabled, Apply;
    var before := run[..|run| - 1];
    if |run| > 1 {
      SplitRun(Apply(s, run[0]), run[1..]);
      assert run[1..][..|run[1..]| - 1] == before[1..];
    } else {
      assert run[1..] == [];
    }
  }

  /** Over every run: bound are exactly the devices with a probe that went well and no removal since, under the number
      of that probe: base + id for a board device, base + the number of devices then bound for a device-tree one. */
  lemma {:induction false} BoundExactlyIfProbesWentWell(base: int, run: seq<Event>, d: Pdev)
    requires Enables(Init(base), run)
    ensures var s := After(Init(base), run);
      && s.base == base && s.probed == Surplus(run)
      && (d in s.number <==> BoundBy(run, d))
      && (d in s.number ==> s.number[d] == NumberBy(base, run, d))
    decreases |run|
  {
    hide Take, Give, Without, Enables, AllWell, ProbeResult;
    if run != [] {
      var before, e := run[..|run| - 1], run[|run| - 1];
      SplitRun(Init(base), run);
      BoundExactlyIfProbesWentWell(base, before, d);
      if e.Probe? {
        ProbeReports(e.how, e.stages);
      }
    }
  }

  // The ledger

  /** The bound devices with number n. */
  function Holders(s: State, n: int): set<Pdev> { set d | d in s.number && s.number[d] == n }

  /** One character device, FIFO and group per bound device. */
  predicate OnePerDevice(s: State) {
    var keys := multiset(s.number.Keys);
    s.cdevs == keys && s.fifos == keys && s.groups == keys
  }

  /** One node per bound device, under its number. */
  ghost predicate OneNodePerNumber(s: State) {
    forall n :: s.nodes[n] == |Holders(s, n)|
  }

  /** The counter is the number of bound devices. */
  predicate CountIsBound(s: State) {
    s.probed == |s.number| == |s.order|
  }

  ghost predicate OrderListsBound(s: State) {
    && (forall d :: d in s.order <==> d in s.number)
    && Distinct(s.order)
  }

  ghost predicate Balanced(s: State) {
    OnePerDevice(s) && OneNodePerNumber(s) && CountIsBound(s) && OrderListsBound(s)
  }

  lemma InitBalanced(base: int)
    ensures Balanced(Init(base)) && Consecutive(Init(base))
  {
    assert forall n :: Holders(Init(base), n) == {};
  }

  ghost predicate Distinct(s: seq<Pdev>) { forall i, j :: 0 <= i < j < |s| ==> s[i] != s[j] }

  /** Each element but d stays where it was, or moves up by one place. */
  lemma {:induction false} WithoutAt(s: seq<Pdev>, d: Pdev, k: nat)
    requires k < |s| && s[k] == d && d !in s[..k]
    ensures Without(s, d) == s[..k] + s[k + 1..]
    decreases |s|
  {
    if k > 0 {
      assert s[0] in s[..k];
      assert s[1..][..k - 1] == s[..k][1..];
      WithoutAt(s[1..], d, k - 1);
    }
  }

  lemma WithoutRemoves(s: seq<Pdev>, d: Pdev)
    requires d in s && Distinct(s)
    ensures var t := Without(s, d);
      && |t| == |s| - 1 && Distinct(t)
      && (forall e :: e in t <==> e in s && e != d)
      && (d == s[|s| - 1] ==> t == s[..|s| - 1])
  {
    hide Without;
    var k :| 0 <= k < |s| && s[k] == d;
    WithoutAt(s, d, k);
    KeepsOthers(s, k);
    assert k + 1 == |s| ==> s[k + 1..] == [];
  }

  lemma KeepsOthers(s: seq<Pdev>, k: nat)
    requires k < |s| && Distinct(s)
    ensures var t := s[..k] + s[k + 1..];
      Distinct(t) && forall e :: e in t <==> e in s && e != s[k]
  {
    var t := s[..k] + s[k + 1..];
    forall e
      ensures e in t <==> e in s && e != s[k]
    {
      if e in s && e != s[k] {
        var i :| 0 <= i < |s| && s[i] == e;
        assert t[if i < k then i else i - 1] == e;
      }
    }
  }

  lemma BindNodes(s: State, dev: Pdev, n: int)
    requires OneNodePerNumber(s) && dev !in s.number
    ensures OneNodePerNumber(s.Bind(dev, n))
  {
    hide Take, Give, Holders, State.Bind;
    var s' := s.Bind(dev, n);
    forall m
      ensures s'.nodes[m] == |Holders(s', m)|
    {
      BindHolders(s, dev, n, m);
    }
  }

  lemma BindHolders(s: State, dev: Pdev, n: int, m: int)
    requires dev !in s.number
    ensures var s' := s.Bind(dev, n);
      && s'.nodes[m] == s.nodes[m] + (if m == n then 1 else 0)
      && |Holders(s', m)| == |Holders(s, m)| + (if m == n then 1 else 0)
  {
    hide Take, Give;
    TakeCount(s.nodes, n);
    assert Holders(s.Bind(dev, n), m) == if m == n then Holders(s, m) + {dev} else Holders(s, m);
  }

  lemma UnbindNodes(s: State, dev: Pdev)
    requires OneNodePerNumber(s) && dev in s.number
    ensures OneNodePerNumber(s.Unbind(dev))
  {
    hide Take, Give, Holders, State.Unbind;
    var s' := s.Unbind(dev);
    forall m
      ensures s'.nodes[m] == |Holders(s', m)|
    {
      UnbindHolders(s, dev, m);
    }
  }

  lemma UnbindHolders(s: State, dev: Pdev, m: int)
    requires OneNodePerNumber(s) && dev in s.number
    ensures var s', n := s.Unbind(dev), s.number[dev];
      && s.nodes[m] == s'.nodes[m] + (if m == n then 1 else 0)
      && |Holders(s, m)| == |Holders(s', m)| + (if m == n then 1 else 0)
  {
    hide Take, Give, Without;
    var n := s.number[dev];
    assert dev in Holders(s, n);
    assert s.nodes[n] == |Holders(s, n)|;
    GiveCount(s.nodes, n);
    assert Holders(s.Unbind(dev), m) == if m == n then Holders(s, m) - {dev} else Holders(s, m);
  }

  lemma {:induction false} WithoutLast(s: seq<Pdev>, d: Pdev)
    requires d !in s
    ensures Without(s + [d], d) == s
    decreases |s|
  {
    if s != [] {
      assert (s + [d])[1..] == s[1..] + [d];
      WithoutLast(s[1..], d);
    }
  }

  /** Removing a device undoes its probe: ledger, counter and numbers are what they were. */
  lemma UnbindUndoesBind(s: State, dev: Pdev, n: int)
    requires OrderListsBound(s) && dev !in s.number
    ensures s.Bind(dev, n).Unbind(dev) == s
  {
    hide Take, Give, Without;
    GiveTake(s.nodes, n);
    GiveTake(s.cdevs, dev);
    GiveTake(s.fifos, dev);
    GiveTake(s.groups, dev);
    WithoutLast(s.order, dev);
    assert s.number[dev := n] - {dev} == s.number;
  }

  /** On a run: a probe followed by the removal of the device leaves no trace, whether the probe succeeds or not. */
  lemma ProbeThenRemove(base: int, run: seq<Event>, dev: Pdev, how: Description, k: Stages)
    requires Enables(Init(base), run) && Enabled(After(Init(base), run), Probe(dev, how, k))
    ensures var s := After(Init(base), run); var s' := Apply(s, Probe(dev, how, k));
      && (dev in s'.number <==> ProbeResult(how, k) == 0)
      && (if dev in s'.number then Apply(s', Remove(dev)) else s') == s
  {
    hide OnePerDevice, OneNodePerNumber, CountIsBound, State.Unbind;
    InitBalanced(base);
    RunBalanced(Init(base), run);
    var s := After(Init(base), run);
    UnbindUndoesBind(s, dev, s.NextNumber(how));
  }

  lemma BindBalanced(s: State, dev: Pdev, n: int)
    requires Balanced(s) && dev !in s.number
    ensures Balanced(s.Bind(dev, n))
  {
    hide OnePerDevice, OneNodePerNumber, CountIsBound, OrderListsBound, State.Bind;
    BindDevice(s, dev, n);
    BindOrder(s, dev, n);
    BindNodes(s, dev, n);
  }

  lemma BindDevice(s: State, dev: Pdev, n: int)
    requires OnePerDevice(s) && dev !in s.number
    ensures OnePerDevice(s.Bind(dev, n))
  {
    hide Take, Give;
    assert s.Bind(dev, n).number.Keys == s.number.Keys + {dev};
    TakeNew(s.number.Keys, dev);
  }

  lemma BindOrder(s: State, dev: Pdev, n: int)
    requires CountIsBound(s) && OrderListsBound(s) && dev !in s.number
    ensures CountIsBound(s.Bind(dev, n)) && OrderListsBound(s.Bind(dev, n))
  {
    hide Take, Give, Distinct;
    assert s.Bind(dev, n).number.Keys == s.number.Keys + {dev};
    assert dev !in s.order;
    AppendNew(s.order, dev);
  }

  lemma AppendNew(s: seq<Pdev>, d: Pdev)
    requires Distinct(s) && d !in s
    ensures Distinct(s + [d]) && forall e :: e in s + [d] <==> e in s || e == d
  {
  }

  lemma UnbindDevice(s: State, dev: Pdev)
    requires OnePerDevice(s) && dev in s.number
    ensures OnePerDevice(s.Unbind(dev))
  {
    hide Take, Give, Without;
    assert s.Unbind(dev).number.Keys == s.number.Keys - {dev};
    GiveOld(s.number.Keys, dev);
  }

  lemma UnbindOrder(s: State, dev: Pdev)
    requires CountIsBound(s) && OrderListsBound(s) && dev in s.number
    ensures CountIsBound(s.Unbind(dev)) && OrderListsBound(s.Unbind(dev))
  {
    hide Take, Give, Without;
    assert s.Unbind(dev).number.Keys == s.number.Keys - {dev};
    WithoutRemoves(s.order, dev);
  }

  lemma UnbindBalanced(s: State, dev: Pdev)
    requires Balanced(s) && dev in s.number
    ensures Balanced(s.Unbind(dev))
  {
    hide OnePerDevice, OneNodePerNumber, CountIsBound, OrderListsBound, State.Unbind;
    UnbindDevice(s, dev);
    UnbindOrder(s, dev);
    UnbindNodes(s, dev);
  }

  lemma StepBalanced(s: State, e: Event)
    requires Balanced(s) && Enabled(s, e)
    ensures Balanced(Apply(s, e)) && Apply(s, e).base == s.base
  {
    hide Balanced, Take, Give;
    match e {
      case Probe(dev, how, k) =>
        if ProbeResult(how, k) == 0 {
          BindBalanced(s, dev, s.NextNumber(how));
        }
      case Remove(dev) => UnbindBalanced(s, dev);
    }
  }

  lemma {:induction false} RunBalanced(s: State, run: seq<Event>)
    requires Balanced(s) && Enables(s, run)
    ensures Balanced(After(s, run)) && After(s, run).base == s.base
    decreases |run|
  {
    hide Balanced, Apply, Enabled;
    if run != [] {
      StepBalanced(s, run[0]);
      RunBalanced(Apply(s, run[0]), run[1..]);
    }
  }

  /** Over every run of probes that fail anywhere, or not at all, and removes: one of each resource per bound device,
      none for any other, and the counter counts them. */
  lemma ResourcesBalance(base: int, run: seq<Event>, d: Pdev)
    requires Enables(Init(base), run)
    ensures var s := After(Init(base), run);
      && s.cdevs[d] == s.fifos[d] == s.groups[d] == (if d in s.number then 1 else 0)
      && s.probed == |s.number|
      && (forall n :: s.nodes[n] == |Holders(s, n)|)
      && (s.number == map[] ==> s.nodes == multiset{})
  {
    InitBalanced(base);
    RunBalanced(Init(base), run);
    var s := After(Init(base), run);
    if s.number == map[] {
      forall n
        ensures s.nodes[n] == 0
      {
        assert Holders(s, n) == {};
      }
    }
  }

  // Device numbers

  predicate DeviceTreeOnly(run: seq<Event>) {
    forall i :: 0 <= i < |run| && run[i].Probe? ==> run[i].how.DeviceTree?
  }

  /** Every removal takes the device bound last. */
  predicate NewestFirst(s: State, run: seq<Event>)
    requires Enables(s, run)
    decreases |run|
  {
    run != [] ==>
      && (run[0].Remove? ==> s.order != [] && run[0].dev == s.order[|s.order| - 1])
      && NewestFirst(Apply(s, run[0]), run[1..])
  }

  /** The bound devices hold base, base + 1, ... in the order in which they were bound. */
  ghost predicate Consecutive(s: State) {
    forall i :: 0 <= i < |s.order| ==> s.order[i] in s.number && s.number[s.order[i]] == s.base + i
  }

  ghost predicate Unique(s: State) {
    forall d, e :: d in s.number && e in s.number && s.number[d] == s.number[e] ==> d == e
  }

  ghost predicate Taken(s: State, n: int) {
    exists d :: d in s.number && s.number[d] == n
  }

  ghost predicate TakenFromBase(s: State) {
    forall n :: Taken(s, n) <==> s.base <= n < s.base + |s.number|
  }

  lemma ConsecutiveStep(s: State, e: Event)
    requires Balanced(s) && Consecutive(s) && Enabled(s, e)
    requires e.Probe? ==> e.how.DeviceTree?
    requires e.Remove? ==> s.order != [] && e.dev == s.order[|s.order| - 1]
    ensures Consecutive(Apply(s, e))
  {
    hide Balanced, Consecutive, State.Bind, State.Unbind;
    match e {
      case Probe(dev, how, k) =>
        if ProbeResult(how, k) == 0 {
          ConsecutiveBind(s, dev, how);
        }
      case Remove(dev) => ConsecutiveUnbind(s, dev);
    }
  }

  lemma ConsecutiveBind(s: State, dev: Pdev, how: Description)
    requires Balanced(s) && Consecutive(s) && dev !in s.number && how.DeviceTree?
    ensures Consecutive(s.Bind(dev, s.NextNumber(how)))
  {
    hide Take, Give, OnePerDevice, OneNodePerNumber, Distinct;
    assert dev !in s.order;
  }

  lemma ConsecutiveUnbind(s: State, dev: Pdev)
    requires Balanced(s) && Consecutive(s) && dev in s.number && dev == s.order[|s.order| - 1]
    ensures Consecutive(s.Unbind(dev))
  {
    hide Take, Give, OnePerDevice, OneNodePerNumber, Without;
    WithoutRemoves(s.order, dev);
  }

  lemma {:induction false} ConsecutiveRun(s: State, run: seq<Event>)
    requires Balanced(s) && Consecutive(s) && Enables(s, run) && DeviceTreeOnly(run) && NewestFirst(s, run)
    ensures Balanced(After(s, run)) && Consecutive(After(s, run))
    decreases |run|
  {
    hide Balanced, Consecutive, Apply, Enabled;
    if run != [] {
      StepBalanced(s, run[0]);
      ConsecutiveStep(s, run[0]);
      ConsecutiveRun(Apply(s, run[0]), run[1..]);
    }
  }

  /** The place of a bound device in the order of binding gives its number. */
  lemma PlaceOf(s: State, d: Pdev) returns (i: nat)
    requires OrderListsBound(s) && Consecutive(s) && d in s.number
    ensures i < |s.order| && s.order[i] == d && s.number[d] == s.base + i
  {
    hide Distinct;
    i :| i < |s.order| && s.order[i] == d;
  }

  lemma ConsecutiveIsUnique(s: State)
    requires Balanced(s) && Consecutive(s)
    ensures Unique(s) && TakenFromBase(s)
  {
    hide OnePerDevice, OneNodePerNumber, Consecutive, OrderListsBound;
    forall d, e | d in s.number && e in s.number && s.number[d] == s.number[e]
      ensures d == e
    {
      var i := PlaceOf(s, d);
      var j := PlaceOf(s, e);
    }
    forall n: int
      ensures Taken(s, n) <==> s.base <= n < s.base + |s.number|
    {
      if s.base <= n < s.base + |s.number| {
        NumberAt(s, n - s.base);
      }
      if d :| d in s.number && s.number[d] == n {
        var i := PlaceOf(s, d);
      }
    }
  }

  lemma NumberAt(s: State, i: nat)
    requires Consecutive(s) && i < |s.order|
    ensures s.order[i] in s.number && s.number[s.order[i]] == s.base + i
  {
  }

  /** If devices go in the reverse order of their coming, the n bound ones hold exactly base .. base + n - 1. */
  lemma NewestFirstKeepsNumbers(base: int, run: seq<Event>)
    requires Enables(Init(base), run) && DeviceTreeOnly(run) && NewestFirst(Init(base), run)
    ensures var s := After(Init(base), run); s.base == base && Unique(s) && TakenFromBase(s)
  {
    hide Balanced, Unique, TakenFromBase;
    InitBalanced(base);
    ConsecutiveRun(Init(base), run);
    RunBalanced(Init(base), run);
    ConsecutiveIsUnique(After(Init(base), run));
  }

  /** Two bound devices with one number have an out-of-order removal behind them. */
  lemma SharedNumberMeansOutOfOrder(base: int, run: seq<Event>)
    requires Enables(Init(base), run) && DeviceTreeOnly(run) && !Unique(After(Init(base), run))
    ensures !NewestFirst(Init(base), run)
  {
    if NewestFirst(Init(base), run) {
      NewestFirstKeepsNumbers(base, run);
    }
  }

  /** They exist: two devices come, the first one goes, a third one comes and shares the number of the second. */
  lemma ReusedNumberRun(base: int, data: PlatformData) returns (run: seq<Event>)
    ensures Enables(Init(base), run) && DeviceTreeOnly(run) && !Unique(After(Init(base), run))
  {
    hide Take, Give, Unique;
    var how, k := DeviceTree(Properties(data)), Stages(true, 0, 0, 0, 0);
    var s0 := Init(base);
    var s1 := Apply(s0, Probe(0, how, k));
    var s2 := Apply(s1, Probe(1, how, k));
    assert s2.number == map[0 := base, 1 := base + 1] && s2.probed == 2;
    var s3 := Apply(s2, Remove(0));
    assert s3.number == map[1 := base + 1] && s3.probed == 1;
    var s4 := Apply(s3, Probe(2, how, k));
    assert s4.number == map[1 := base + 1, 2 := base + 1];
    SharedIsNotUnique(s4, 1, 2);
    var r3, r2, r1 := [Probe(2, how, k)], [Remove(0)], [Probe(1, how, k)];
    run := [Probe(0, how, k)] + (r1 + (r2 + r3));
    Prepend(s3, Probe(2, how, k), []);
    assert r3 + [] == r3;
    Prepend(s2, Remove(0), r3);
    Prepend(s1, Probe(1, how, k), r2 + r3);
    Prepend(s0, Probe(0, how, k), r1 + (r2 + r3));
  }

  lemma SharedIsNotUnique(s: State, d: Pdev, e: Pdev)
    requires d in s.number && e in s.number && d != e && s.number[d] == s.number[e]
    ensures !Unique(s)
  {
  }

  lemma Prepend(s: State, e: Event, run: seq<Event>)
    requires Enabled(s, e) && Enables(Apply(s, e), run)
    ensures Enables(s, [e] + run) && After(s, [e] + run) == After(Apply(s, e), run)
  {
    hide Enabled, Apply;
    assert ([e] + run)[1..] == run;
  }

  /** Once a device is gone, the number that the next one would get is held by nobody, or by the newest one left. */
  lemma NextNumberHolders(s: State, d: Pdev, how: Description)
    requires Balanced(s) && Consecutive(s) && d in s.number && how.DeviceTree?
    ensures |s.order| > 0
    ensures var r, last := s.Unbind(d), s.order[|s.order| - 1];
      if d == last then Holders(r, r.NextNumber(how)) == {} else last in Holders(r, r.NextNumber(how))
  {
    hide Take, Give, Without, OnePerDevice, OneNodePerNumber, OrderListsBound, Consecutive;
    var place := PlaceOf(s, d);
    var r, last := s.Unbind(d), s.order[|s.order| - 1];
    NumberAt(s, |s.order| - 1);
    ConsecutiveIsUnique(s);
    assert r.NextNumber(how) == s.number[last];
  }

  /** Exactly when: after any run without an out-of-order removal, one more removal leaves the next number free, and
      all numbers different once a device-tree device takes it, if and only if it was the newest device that went.
      Otherwise the newest still holds it: the node can only be refused or shared. */
  lemma NextNumberFreshExactlyIfNewestRemoved(base: int, run: seq<Event>, d: Pdev, e: Pdev, how: Description, k: Stages)
    requires Enables(Init(base), run) && DeviceTreeOnly(run) && NewestFirst(Init(base), run)
    requires d in After(Init(base), run).number && e !in After(Init(base), run).number - {d}
    requires how.DeviceTree? && ProbeResult(how, k) == 0
    ensures var s := After(Init(base), run); var r := s.Unbind(d);
      && |s.order| > 0
      && (r.nodes[r.NextNumber(how)] == 0 <==> d == s.order[|s.order| - 1])
      && (Unique(Apply(r, Probe(e, how, k))) <==> d == s.order[|s.order| - 1])
  {
    hide Balanced, Consecutive, NewestFirst, State.Unbind, State.Bind, Unique, Holders;
    InitBalanced(base);
    ConsecutiveRun(Init(base), run);
    var s := After(Init(base), run);
    NextNumberHolders(s, d, how);
    UnbindBalanced(s, d);
    NodesAre(s.Unbind(d), s.Unbind(d).NextNumber(how));
    UnbindUnique(s, d);
    BindUnique(s.Unbind(d), e, s.Unbind(d).NextNumber(how));
  }

  lemma NodesAre(s: State, n: int)
    requires Balanced(s)
    ensures s.nodes[n] == |Holders(s, n)|
  {
    hide OnePerDevice, CountIsBound, OrderListsBound, Holders;
  }

  lemma UnbindUnique(s: State, d: Pdev)
    requires Balanced(s) && Consecutive(s) && d in s.number
    ensures Unique(s.Unbind(d)) && s.Unbind(d).number == s.number - {d}
  {
    hide Take, Give, Without, Balanced, Consecutive;
    ConsecutiveIsUnique(s);
  }

  /** Numbers stay different exactly if the new one is held by nobody. */
  lemma BindUnique(s: State, e: Pdev, n: int)
    requires Unique(s) && e !in s.number
    ensures Unique(s.Bind(e, n)) <==> Holders(s, n) == {}
  {
    hide Take, Give, Unique;
    var s' := s.Bind(e, n);
    if d :| d in Holders(s, n) {
      SharedIsNotUnique(s', d, e);
    } else {
      NewNumberIsUnique(s, e, n);
    }
  }

  lemma NewNumberIsUnique(s: State, e: Pdev, n: int)
    requires Unique(s) && Holders(s, n) == {}
    ensures Unique(s.Bind(e, n))
  {
    hide Take, Give;
    assert forall d :: d in s.number && s.number[d] == n ==> d in Holders(s, n);
  }
}
