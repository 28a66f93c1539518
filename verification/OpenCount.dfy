/**
 The open limit of the shared FIFO device. The guard of open reads `ref_cntr` and increments it in two steps; so do
 the guard and the decrement of release; the administrator may change `usrs_cnt` at any time.
 */
module OpenCount {
  import opened Words

  type Handle = nat

  const DEFAULT_NR_USERS: nat := 2

  datatype Phase = Closed | Checked | Opened | Closing(positive: bool)

  /** `maxUsers` records the largest `usrs_cnt` ever in force; no step reads it. */
  datatype State = State(refs: int, users: nat, phases: map<Handle, Phase>, maxUsers: nat) {
    function PhaseOf(h: Handle): Phase { if h in phases then phases[h] else Closed }

    function Set(h: Handle, p: Phase): State { this.(phases := phases[h := p]) }

    /** Past the guard of open, not yet counted. */
    function InFlight(): set<Handle> { set h | h in phases && phases[h] == Checked }

    /** Past the increment, not yet past the decrement. */
    function Counted(): set<Handle> { set h | h in phases && (phases[h] == Opened || phases[h].Closing?) }
  }

  datatype Event =
    | Check(h: Handle)      // open: the guard
    | Increment(h: Handle)  // open: atomic_inc
    | Guard(h: Handle)      // release: atomic_read > 0
    | Decrement(h: Handle)  // release: atomic_dec, if the guard held
    | SetUsers(n: nat)      // ioctl; a failed copy from the user stores 0

  function Init(): State { State(0, DEFAULT_NR_USERS, map[], DEFAULT_NR_USERS) }

  predicate Enabled(s: State, e: Event) {
    match e
    case Check(h) => s.PhaseOf(h) == Closed
    case Increment(h) => s.PhaseOf(h) == Checked
    case Guard(h) => s.PhaseOf(h) == Opened
    case Decrement(h) => s.PhaseOf(h).Closing?
    case SetUsers(_) => true
  }

  /** A refused open (-EMFILE) leaves everything as it was. */
  function Apply(s: State, e: Event): State
    requires Enabled(s, e)
  {
    match e
    case Check(h) => if s.refs >= s.users then s else s.Set(h, Checked)
    case Increment(h) => s.(refs := s.refs + 1).Set(h, Opened)
    case Guard(h) => s.Set(h, Closing(s.refs > 0))
    case Decrement(h) => s.(refs := if s.PhaseOf(h).positive then s.refs - 1 else s.refs).Set(h, Closed)
    case SetUsers(n) => s.(users := n, maxUsers := Max(s.maxUsers, n))
  }

  /** A run in which never more than `width` opens are between their guard and their increment. */
  predicate Enables(s: State, run: seq<Event>, width: nat)
    decreases |run|
  {
    && |s.InFlight()| <= width
    && (run != [] ==> Enabled(s, run[0]) && Enables(Apply(s, run[0]), run[1..], width))
  }

  function After(s: State, run: seq<Event>, width: nat): State
    requires Enables(s, run, width)
    decreases |run|
  {
    if run == [] then s else After(Apply(s, run[0]), run[1..], width)
  }

  /** The count is exact, the guard of release holds whenever it is read, and with opens in flight counted in, the
      limit is exceeded by less than the number that may be in flight. */
  ghost predicate Inv(s: State, width: nat) {
    && s.refs == |s.Counted()|
    && (forall h :: h in s.phases && s.phases[h].Closing? ==> s.phases[h].positive)
    && s.users <= s.maxUsers
    && s.refs + |s.InFlight()| <= s.maxUsers + Max(width - 1, 0)
    && |s.InFlight()| <= width
  }

  lemma CheckedSets(s: State, h: Handle)
    requires s.PhaseOf(h) == Closed
    ensures s.Set(h, Checked).InFlight() == s.InFlight() + {h} && h !in s.InFlight()
    ensures s.Set(h, Checked).Counted() == s.Counted()
  {
  }

  lemma CheckInv(s: State, h: Handle, width: nat)
    requires Inv(s, width) && Enabled(s, Check(h))
    requires |Apply(s, Check(h)).InFlight()| <= width
    ensures Inv(Apply(s, Check(h)), width)
  {
    if s.refs < s.users {
      CheckedSets(s, h);
    }
  }

  lemma IncrementInv(s: State, h: Handle, width: nat)
    requires Inv(s, width) && Enabled(s, Increment(h))
    ensures Inv(Apply(s, Increment(h)), width)
  {
    var s' := Apply(s, Increment(h));
    assert s'.InFlight() == s.InFlight() - {h};
    assert s'.Counted() == s.Counted() + {h};
  }

  lemma GuardInv(s: State, h: Handle, width: nat)
    requires Inv(s, width) && Enabled(s, Guard(h))
    ensures Inv(Apply(s, Guard(h)), width) && Apply(s, Guard(h)).phases[h] == Closing(true)
  {
    var s' := Apply(s, Guard(h));
    assert s'.InFlight() == s.InFlight();
    assert s'.Counted() == s.Counted();
    assert |s.Counted() - {h}| == |s.Counted()| - 1;
  }

  lemma DecrementInv(s: State, h: Handle, width: nat)
    requires Inv(s, width) && Enabled(s, Decrement(h))
    ensures Inv(Apply(s, Decrement(h)), width)
  {
    var s' := Apply(s, Decrement(h));
    assert s'.InFlight() == s.InFlight();
    assert s'.Counted() == s.Counted() - {h};
  }

  lemma StepInv(s: State, e: Event, width: nat)
    requires Inv(s, width) && Enabled(s, e) && |Apply(s, e).InFlight()| <= width
    ensures Inv(Apply(s, e), width)
  {
    match e
    case Check(h) => CheckInv(s, h, width);
    case Increment(h) => IncrementInv(s, h, width);
    case Guard(h) => GuardInv(s, h, width);
    case Decrement(h) => DecrementInv(s, h, width);
    case SetUsers(n) =>
      assert Apply(s, e).InFlight() == s.InFlight();
      assert Apply(s, e).Counted() == s.Counted();
  }

  lemma {:induction false} RunInv(s: State, run: seq<Event>, width: nat)
    requires Inv(s, width) && Enables(s, run, width)
    ensures Inv(After(s, run, width), width)
    decreases |run|
  {
    if run != [] {
      StepInv(s, run[0], width);
      RunInv(Apply(s, run[0]), run[1..], width);
    }
  }

  /** `ref_cntr` is the number of handles past their increment and not past their decrement; release always finds it
      positive; and it exceeds the largest limit by at most the number of opens in flight less one. */
  lemma OpenersBounded(run: seq<Event>, width: nat)
    requires Enables(Init(), run, width)
    ensures var s := After(Init(), run, width);
      && s.refs == |s.Counted()|
      && (forall h | s.PhaseOf(h) == Opened :: s.refs > 0)
      && (forall h | s.PhaseOf(h).Closing? :: s.PhaseOf(h) == Closing(true))
      && s.refs <= s.maxUsers + Max(width - 1, 0)
  {
    assert Init().InFlight() == {} && Init().Counted() == {};
    RunInv(Init(), run, width);
    var s := After(Init(), run, width);
    forall h | s.PhaseOf(h) == Opened
      ensures s.refs > 0
    {
      assert h in s.Counted();
    }
  }

  // The bound is met

  function CrowdPhase(o: nat, h: nat): Phase { if h < o then Opened else Checked }

  /** Handles 0 .. o-1 are open and the next c past their guard, under the limit u. */
  function Crowd(u: nat, o: nat, c: nat): State {
    State(o, u, map h: nat | h < o + c :: CrowdPhase(o, h), Max(DEFAULT_NR_USERS, u))
  }

  function Interval(o: nat, c: nat): (hs: set<Handle>)
    ensures |hs| == c && forall h: Handle :: h in hs <==> o <= h < o + c
  {
    if c == 0 then {} else Interval(o, c - 1) + {o + c - 1}
  }

  lemma CrowdInFlight(u: nat, o: nat, c: nat)
    ensures |Crowd(u, o, c).InFlight()| == c
  {
    assert Crowd(u, o, c).InFlight() == Interval(o, c);
  }

  lemma CrowdSteps(u: nat, o: nat, c: nat)
    ensures o < u ==> Enabled(Crowd(u, o, c), Check(o + c))
                      && Apply(Crowd(u, o, c), Check(o + c)) == Crowd(u, o, c + 1)
    ensures c > 0 ==> Enabled(Crowd(u, o, c), Increment(o))
                      && Apply(Crowd(u, o, c), Increment(o)) == Crowd(u, o + 1, c - 1)
  {
    assert o < u ==> Apply(Crowd(u, o, c), Check(o + c)).phases == Crowd(u, o, c + 1).phases;
    assert c > 0 ==> Apply(Crowd(u, o, c), Increment(o)).phases == Crowd(u, o + 1, c - 1).phases;
  }

  lemma Prepend(s: State, e: Event, run: seq<Event>, width: nat)
    requires |s.InFlight()| <= width && Enabled(s, e) && Enables(Apply(s, e), run, width)
    ensures Enables(s, [e] + run, width) && After(s, [e] + run, width) == After(Apply(s, e), run, width)
  {
    hide Enabled, Apply, State.InFlight;
    assert ([e] + run)[1..] == run;
  }

  lemma NoEvent(s: State, width: nat)
    requires |s.InFlight()| <= width
    ensures Enables(s, [], width) && After(s, [], width) == s
  {
  }

  /** From c opens past their guard and room for more, all that may be in flight get in. */
  lemma {:induction false} RushRun(u: nat, o: nat, c: nat, width: nat, rising: bool)
    returns (run: seq<Event>)
    requires 1 <= c <= width && (rising ==> o + 1 == u)
    ensures Enables(Crowd(u, o, c), run, width)
    ensures After(Crowd(u, o, c), run, width) == Crowd(u, if rising then o + width else o + c, 0)
    decreases rising, if rising then width - c else c
  {
    hide Crowd, Apply, Enabled, Enables, State.InFlight;
    CrowdInFlight(u, o, c);
    CrowdSteps(u, o, c);
    var rest := [];
    if rising && c < width {
      rest := RushRun(u, o, c + 1, width, true);
      run := [Check(o + c)] + rest;
      Prepend(Crowd(u, o, c), Check(o + c), rest, width);
    } else if rising {
      run := RushRun(u, o, c, width, false);
    } else {
      if c > 1 {
        rest := RushRun(u, o + 1, c - 1, width, false);
      } else {
        CrowdInFlight(u, o + 1, 0);
        NoEvent(Crowd(u, o + 1, 0), width);
      }
      run := [Increment(o)] + rest;
      Prepend(Crowd(u, o, c), Increment(o), rest, width);
    }
  }

  /** One open after the other fills the device up to one below its limit; then `width` of them rush in. */
  lemma {:induction false} FillRun(u: nat, o: nat, width: nat) returns (run: seq<Event>)
    requires o < u && 1 <= width
    ensures Enables(Crowd(u, o, 0), run, width)
    ensures After(Crowd(u, o, 0), run, width) == Crowd(u, u - 1 + width, 0)
    decreases u - o
  {
    hide Crowd, Apply, Enabled, Enables, State.InFlight;
    CrowdInFlight(u, o, 0);
    CrowdInFlight(u, o, 1);
    CrowdSteps(u, o, 0);
    CrowdSteps(u, o, 1);
    var rest;
    if o + 1 == u {
      rest := RushRun(u, o, 1, width, true);
    } else {
      var tail := FillRun(u, o + 1, width);
      Prepend(Crowd(u, o, 1), Increment(o), tail, width);
      rest := [Increment(o)] + tail;
    }
    Prepend(Crowd(u, o, 0), Check(o), rest, width);
    run := [Check(o)] + rest;
  }

  /** Every limit from the default up and every number of opens in flight reach the bound. */
  lemma BoundIsMet(u: nat, width: nat) returns (run: seq<Event>)
    requires u >= DEFAULT_NR_USERS && width >= 1
    ensures Enables(Init(), run, width)
    ensures var s := After(Init(), run, width); s.maxUsers == u && s.refs == u + width - 1
  {
    var rest := FillRun(u, 0, width);
    run := [SetUsers(u)] + rest;
    assert Init().InFlight() == {};
    assert Apply(Init(), SetUsers(u)) == Crowd(u, 0, 0);
    Prepend(Init(), SetUsers(u), rest, width);
  }

  ghost predicate LimitHolds(width: nat) {
    forall run :: Enables(Init(), run, width)
                  ==> After(Init(), run, width).refs <= After(Init(), run, width).maxUsers
  }

  /** The limit itself holds in every run exactly if opens never overlap. */
  lemma LimitHoldsExactlyWithoutOverlap(width: nat)
    ensures LimitHolds(width) <==> width <= 1
  {
    if width <= 1 {
      forall run | Enables(Init(), run, width)
        ensures After(Init(), run, width).refs <= After(Init(), run, width).maxUsers
      {
        OpenersBounded(run, width);
      }
    } else {
      var run := BoundIsMet(DEFAULT_NR_USERS, width);
    }
  }
}
