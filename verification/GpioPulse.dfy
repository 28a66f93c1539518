/**
 The GPIO pulse timer. The callback reads the pin, writes the opposite, tests `enablepulse` and re-arms, each a step of
 its own; stores to `enablepulse` come in between, and are themselves a write followed by an arming of the timer.
 */
module GpioPulse {
  import opened Words

  datatype Stage = Idle | Reading | Writing(val: int) | Testing | Arming

  /** `toggles` and `complete` count pin changes and finished callbacks, `arming` the enabling stores that have written
      the field and not armed the timer yet. The timer runs its callback only once at a time. */
  datatype State = State(
    pin: int, enable: int, pending: bool, stage: Stage, arming: nat, toggles: nat, complete: nat)

  datatype Event =
    | Expire            // the timer fires: the callback starts
    | Step              // one step of the callback
    | StoreField(v: int) // enablepulse_store: the assignment
    | StoreArm          // enablepulse_store: mod_timer, if the value parsed is not zero

  /** A long stored in an int: the int that differs from it by a multiple of the word. */
  function Truncated(v: int): (t: int)
    ensures -0x8000_0000 <= t < 0x8000_0000 && (t - v) % WORD == 0
  {
    CutDiffers(v);
    var r := v % WORD;
    if r < 0x8000_0000 then r else r - WORD
  }

  lemma CutDiffers(v: int)
    ensures (v % WORD - v) % WORD == 0 && (v % WORD - WORD - v) % WORD == 0
  {
    assert v % WORD - v == 0 + -(v / WORD) * WORD;
    ModAddMultiple(0, -(v / WORD), WORD);
    assert v % WORD - WORD - v == 0 + (-(v / WORD) - 1) * WORD;
    ModAddMultiple(0, -(v / WORD) - 1, WORD);
  }

  /** What fits an int is kept, and only what fits; zero comes of the multiples of the word. */
  lemma CutKeepsExactlyWhatFits(v: int)
    ensures Truncated(v) == v <==> -0x8000_0000 <= v < 0x8000_0000
    ensures Truncated(v) == 0 <==> v % WORD == 0
  {
  }

  /** What kstrtol makes of the text: a number, or one of its two errors, -EINVAL and -ERANGE. */
  datatype Parse = Parsed(value: int) | Failed(error: int)

  /** Probe drives the pin high and arms the timer whatever the property says. */
  function Init(enable: int): State {
    State(1, enable, true, Idle, 0, 0, 0)
  }

  predicate Enabled(s: State, e: Event) {
    match e
    case Expire => s.pending && s.stage == Idle
    case Step => s.stage != Idle
    case StoreField(_) => true
    case StoreArm => s.arming > 0
  }

  function Apply(s: State, e: Event): State
    requires Enabled(s, e)
  {
    match e
    case Expire => s.(pending := false, stage := Reading)
    case Step => (
      match s.stage
      case Idle => s
      case Reading => s.(stage := Writing(s.pin))
      case Writing(val) => s.(pin := if val == 0 then 1 else 0, stage := Testing, toggles := s.toggles + 1)
      case Testing =>
        if s.enable != 0 then s.(stage := Arming) else s.(stage := Idle, complete := s.complete + 1)
      case Arming => s.(pending := true, stage := Idle, complete := s.complete + 1)
    )
    case StoreField(v) => s.(enable := Truncated(v), arming := if v != 0 then s.arming + 1 else s.arming)
    case StoreArm => s.(pending := true, arming := s.arming - 1)
  }

  predicate Enables(s: State, run: seq<Event>)
    decreases |run|
  {
    run != [] ==> Enabled(s, run[0]) && Enables(Apply(s, run[0]), run[1..])
  }

  function After(s: State, run: seq<Event>): State
    requires Enables(s, run)
    decreases |run|
  {
    if run == [] then s else After(Apply(s, run[0]), run[1..])
  }

  // The pin

  predicate Inv(s: State) {
    && s.pin == (1 + s.toggles) % 2
    && (s.stage.Writing? ==> s.stage.val == s.pin)
    && s.toggles == s.complete + if s.stage == Testing || s.stage == Arming then 1 else 0
  }

  lemma {:induction false} RunInv(s: State, run: seq<Event>)
    requires Inv(s) && Enables(s, run)
    ensures Inv(After(s, run))
    decreases |run|
  {
    if run != [] {
      RunInv(Apply(s, run[0]), run[1..]);
    }
  }

  /** However stores interleave, the pin is high exactly after an even number of changes, and every finished callback
      changed it once. */
  lemma PinFollowsCallbacks(enable: int, run: seq<Event>)
    requires Enables(Init(enable), run)
    ensures var s := After(Init(enable), run);
      && s.pin == (1 + s.toggles) % 2
      && (s.stage == Idle ==> s.pin == (1 + s.complete) % 2)
  {
    RunInv(Init(enable), run);
  }

  // After disabling

  /** How often the pin can still change: once for a callback not yet past its write, once for a timer armed or about
      to be re-armed, once for every store that is still to arm it. */
  function Remaining(s: State): nat {
    (if s.stage == Reading || s.stage.Writing? then 1 else 0)
    + (if s.pending || s.stage == Arming then 1 else 0)
    + s.arming
  }

  predicate NoEnabling(run: seq<Event>) {
    forall i :: 0 <= i < |run| && run[i].StoreField? ==> run[i].v == 0
  }

  lemma DisabledStep(s: State, e: Event)
    requires s.enable == 0 && Enabled(s, e) && (e.StoreField? ==> e.v == 0)
    ensures var s' := Apply(s, e);
      s'.enable == 0 && s'.toggles + Remaining(s') <= s.toggles + Remaining(s)
  {
  }

  lemma {:induction false} DisabledRun(s: State, run: seq<Event>)
    requires s.enable == 0 && Enables(s, run) && NoEnabling(run)
    ensures After(s, run).toggles + Remaining(After(s, run)) <= s.toggles + Remaining(s)
    decreases |run|
  {
    if run != [] {
      DisabledStep(s, run[0]);
      DisabledRun(Apply(s, run[0]), run[1..]);
    }
  }

  /** Once the field is zero and until the next enabling store, the pin changes at most twice, and at most once if no
      callback was running; every enabling store that has assigned the field and not armed the timer adds one. */
  lemma LateTogglesAreBounded(s: State, run: seq<Event>)
    requires s.enable == 0 && Enables(s, run) && NoEnabling(run)
    ensures After(s, run).toggles - s.toggles <= Remaining(s) <= 2 + s.arming
    ensures s.stage == Idle ==> Remaining(s) <= 1 + s.arming
  {
    DisabledRun(s, run);
  }

  /** How far the next pin change is at most, in steps. */
  function StepsToWrite(s: State): nat {
    match s.stage
    case Testing => 5
    case Arming => 5
    case Idle => if s.pending then 3 else 4
    case Reading => 2
    case Writing(_) => 1
  }

  /** The bound is what can happen: some run uses it up. */
  lemma {:induction false} LateTogglesHappen(s: State) returns (run: seq<Event>)
    requires s.enable == 0
    ensures Enables(s, run) && NoEnabling(run)
    ensures After(s, run).toggles - s.toggles == Remaining(s)
    decreases Remaining(s), StepsToWrite(s)
  {
    if Remaining(s) == 0 {
      return [];
    }
    var e := if s.stage != Idle then Step else if s.pending then Expire else StoreArm;
    var rest := LateTogglesHappen(Apply(s, e));
    run := [e] + rest;
    assert run[1..] == rest;
  }

  /** n enabling stores that all stop between their assignment and the arming of the timer. */
  lemma {:induction false} HalfStores(s: State, n: nat) returns (run: seq<Event>)
    ensures Enables(s, run)
    ensures After(s, run) == if n == 0 then s else s.(enable := 1, arming := s.arming + n)
    decreases n
  {
    run := [];
    if n > 0 {
      var rest := HalfStores(Apply(s, StoreField(1)), n - 1);
      Prepend(s, StoreField(1), rest);
      run := [StoreField(1)] + rest;
    }
  }

  /** A callback has started, and an enabling store has armed the timer again meanwhile. */
  lemma RunningRun(s: State) returns (run: seq<Event>)
    requires s.pending && s.stage == Idle
    ensures Enables(s, run)
    ensures After(s, run) == s.(stage := Reading, enable := 1)
  {
    var s1 := Apply(s, Expire);
    var s2 := Apply(s1, StoreField(1));
    Prepend(s2, StoreArm, []);
    Prepend(s1, StoreField(1), [StoreArm] + []);
    Prepend(s, Expire, [StoreField(1)] + ([StoreArm] + []));
    run := [Expire] + ([StoreField(1)] + ([StoreArm] + []));
  }

  /** The bound is reached from probe on, for every number of half-done stores: with a callback running when the field
      becomes zero two changes follow, else one, and one more for each of them. */
  lemma BoundIsReached(enable: int, n: nat, running: bool) returns (run: seq<Event>, late: seq<Event>)
    ensures run != [] && run[|run| - 1] == StoreField(0) && Enables(Init(enable), run)
    ensures var s := After(Init(enable), run);
      && s.enable == 0 && s.arming == n && (running <==> s.stage != Idle)
      && Enables(s, late) && NoEnabling(late)
      && After(s, late).toggles - s.toggles == (if running then 2 else 1) + n
  {
    hide Apply;
    var first := [];
    if running {
      first := RunningRun(Init(enable));
    }
    var s := After(Init(enable), first);
    var stores := HalfStores(s, n);
    var m := After(s, stores);
    var off := [StoreField(0)];
    DisableRun(m);
    RunsCompose(s, stores, off);
    RunsCompose(Init(enable), first, stores + off);
    run := first + (stores + off);
    late := LateTogglesHappen(After(m, off));
  }

  lemma DisableRun(s: State)
    ensures Enables(s, [StoreField(0)]) && After(s, [StoreField(0)]) == s.(enable := 0)
  {
    Prepend(s, StoreField(0), []);
    assert [StoreField(0)] + [] == [StoreField(0)];
  }

  lemma {:induction false} RunsCompose(s: State, a: seq<Event>, b: seq<Event>)
    requires Enables(s, a) && Enables(After(s, a), b)
    ensures Enables(s, a + b) && After(s, a + b) == After(After(s, a), b)
    decreases |a|
  {
    hide Enabled, Apply;
    if a == [] {
      assert a + b == b;
    } else {
      assert (a + b)[0] == a[0] && (a + b)[1..] == a[1..] + b;
      RunsCompose(Apply(s, a[0]), a[1..], b);
    }
  }

  lemma Prepend(s: State, e: Event, run: seq<Event>)
    requires Enabled(s, e) && Enables(Apply(s, e), run)
    ensures Enables(s, [e] + run) && After(s, [e] + run) == After(Apply(s, e), run)
  {
    assert ([e] + run)[1..] == run;
  }

  /** A store and the callback after it, nothing in between: the timer stays armed exactly if the value is not zero as
      an int. A nonzero multiple of the word arms the timer for a single change. */
  lemma PulsesOnExactly(s: State, v: int) returns (run: seq<Event>)
    requires s.stage == Idle && s.arming == 0 && v != 0
    ensures Enables(s, run) && run != [] && run[0] == StoreField(v)
    ensures var s' := After(s, run);
      && s'.stage == Idle && s'.toggles == s.toggles + 1 && s'.complete == s.complete + 1
      && (s'.pending <==> v % WORD != 0)
      && (-0x8000_0000 <= v < 0x8000_0000 ==> s'.enable == v && s'.pending)
  {
    hide Truncated;
    CutKeepsExactlyWhatFits(v);
    var s1 := Apply(s, StoreField(v));
    var s2 := Apply(s1, StoreArm);
    var callback := if s2.enable != 0 then [Expire, Step, Step, Step, Step] else [Expire, Step, Step, Step];
    CallbackRun(s2, callback);
    Prepend(s1, StoreArm, callback);
    Prepend(s, StoreField(v), [StoreArm] + callback);
    run := [StoreField(v)] + ([StoreArm] + callback);
  }

  // The driver object

  class Pulse {
    var pin: int
    var enablepulse: int
    var pending: bool
    ghost var toggles: nat

    /** The machine's state between callbacks. */
    ghost predicate Between(s: State)
      reads this
    {
      s.stage == Idle && s.arming == 0
      && s.pin == pin && s.enable == enablepulse && s.pending == pending && s.toggles == toggles
    }

    /** The arming step of probe. */
    constructor (property: int)
      ensures Between(Init(property))
    {
      pin, enablepulse, pending, toggles := 1, property, true, 0;
    }

    /** timer_cbk, run without interruption. */
    method TimerCbk(ghost s: State) returns (ghost run: seq<Event>)
      requires Between(s) && pending
      modifies this
      ensures Enables(s, run) && Between(After(s, run)) && run != [] && run[0] == Expire
      ensures After(s, run).complete == s.complete + 1 && toggles == old(toggles) + 1
      ensures pin == if old(pin) == 0 then 1 else 0
      ensures pending <==> enablepulse != 0
      ensures enablepulse == old(enablepulse)
    {
      pending := false;
      var val := pin;
      pin := if val == 0 then 1 else 0;
      toggles := toggles + 1;
      if enablepulse != 0 {
        pending := true;
      }
      run := if s.enable != 0 then [Expire, Step, Step, Step, Step] else [Expire, Step, Step, Step];
      CallbackRun(s, run);
    }

    /** enablepulse_store. What kstrtol parsed decides on the timer; what fits an int decides on re-arming. */
    method EnablepulseStore(parsed: Parse, count: nat, ghost s: State)
      returns (ret: int, ghost run: seq<Event>)
      requires Between(s)
      modifies `enablepulse, `pending
      ensures ret == if parsed.Parsed? then count else parsed.error
      ensures Enables(s, run) && Between(After(s, run))
      ensures parsed.Failed? ==> run == [] && enablepulse == old(enablepulse)
      ensures parsed.Parsed? ==>
        run != [] && run[0] == StoreField(parsed.value) && enablepulse == Truncated(parsed.value)
      ensures parsed.Parsed? ==>
        -0x8000_0000 <= enablepulse < 0x8000_0000 && (enablepulse - parsed.value) % WORD == 0
      ensures parsed.Parsed? ==> (enablepulse == parsed.value <==> -0x8000_0000 <= parsed.value < 0x8000_0000)
      ensures pending == (old(pending) || (parsed.Parsed? && parsed.value != 0))
    {
      hide Truncated;
      run := [];
      if parsed.Failed? {
        return parsed.error, run;
      }
      CutKeepsExactlyWhatFits(parsed.value);
      enablepulse := Truncated(parsed.value);
      run := [StoreField(parsed.value)];
      if parsed.value != 0 {
        pending := true;
        run := run + [StoreArm];
        assert run[1..] == [StoreArm] && [StoreArm][1..] == [];
        assert Enables(Apply(s, run[0]), [StoreArm]);
      } else {
        assert run[1..] == [];
      }
      ret := count;
    }
  }

  lemma CallbackRun(s: State, run: seq<Event>)
    requires s.stage == Idle && s.pending
    requires run == if s.enable != 0 then [Expire, Step, Step, Step, Step] else [Expire, Step, Step, Step]
    ensures Enables(s, run)
    ensures After(s, run) == s.(pin := if s.pin == 0 then 1 else 0, pending := s.enable != 0,
                                toggles := s.toggles + 1, complete := s.complete + 1)
  {
    var s1 := Apply(s, Expire);
    var s2 := Apply(s1, Step);
    var s3 := Apply(s2, Step);
    var s4 := Apply(s3, Step);
    var tail := if s.enable != 0 then [Step] else [];
    if s.enable != 0 {
      Prepend(s4, Step, []);
      assert [Step] + [] == tail;
    }
    Prepend(s3, Step, tail);
    Prepend(s2, Step, [Step] + tail);
    Prepend(s1, Step, [Step] + ([Step] + tail));
    Prepend(s, Expire, [Step] + ([Step] + ([Step] + tail)));
    assert run == [Expire] + ([Step] + ([Step] + ([Step] + tail)));
  }
}
