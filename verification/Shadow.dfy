/**
 * The shadow callback and the shadow loop of the AWS IoT example: two threads that share the
 * desired state of a lamp without a lock, and a semaphore that counts to one.
 */
module Shadow {
  import opened Words

  /** A delta with its version, or any message that the callback does not act on. */
  datatype Message = Delta(version: nat, powerOn: Option<nat>) | Other

  /** Where the callback is: between calls, about to store, about to give the semaphore. */
  datatype CallbackPc = Idle | Store(value: nat) | Give

  /** Where the loop is; each of these reads or writes one shared variable, or the lamp. */
  datatype LoopPc = Wait | TestOn | SetLed(on: bool) | Copy | TestOff | Publish

  datatype State = State(
    version: nat,             // ulCurrentVersion
    desired: nat,             // ulDesiredPowerOnState
    current: nat,             // ulCurrentPowerOnState
    led: Option<bool>,        // unknown until first set
    reported: Option<nat>,    // last published
    count: nat,               // of the semaphore
    callback: CallbackPc,
    loop: LoopPc,
    log: seq<Message>)        // delivered so far

  predicate Initial(s: State) {
    && s.version == s.desired == s.current == 0 && s.count == 1
    && s.callback == Idle && s.loop == Wait && s.log == [] && s.reported == None
  }

  // ---------------------------------------------------------------------------------------
  // Steps
  // ---------------------------------------------------------------------------------------

  /** The callback up to its first write that the loop can see. */
  function Delivered(s: State, m: Message): State {
    var t := s.(log := s.log + [m]);
    if m.Other? || m.version <= s.version then t
    else t.(version := m.version, callback := if m.powerOn.Some? then Store(m.powerOn.value) else Idle)
  }

  /** Giving a semaphore whose count is at its maximum, one, is refused. */
  function Given(count: nat): nat {
    if count < 1 then count + 1 else count
  }

  /** The rest of a callback. */
  function CallbackNext(s: State): State
    requires s.callback != Idle
  {
    match s.callback
    case Store(value) => s.(desired := value, callback := Give)
    case Give => s.(count := Given(s.count), callback := Idle)
  }

  predicate Blocked(s: State) {
    s.loop == Wait && s.count == 0
  }

  function LoopNext(s: State): State
    requires !Blocked(s)
  {
    match s.loop
    case Wait => s.(count := s.count - 1, loop := TestOn)
    case TestOn => s.(loop := if s.desired == 1 then SetLed(true) else TestOff)
    case TestOff => s.(loop := if s.desired == 0 then SetLed(false) else Publish)
    case SetLed(on) => s.(led := Some(on), loop := Copy)
    case Copy => s.(current := s.desired, loop := Publish)
    case Publish => s.(reported := Some(s.current), loop := Wait)
  }

  ghost predicate Deliver(s: State, t: State) {
    s.callback == Idle && exists m :: t == Delivered(s, m)
  }

  /** A step of either thread in which no message arrives. */
  predicate Progress(s: State, t: State) {
    || (s.callback != Idle && t == CallbackNext(s))
    || (!Blocked(s) && t == LoopNext(s))
  }

  ghost predicate Step(s: State, t: State) {
    Deliver(s, t) || Progress(s, t)
  }

  /** Any interleaving of the two threads, of any length. */
  ghost predicate IsRun(run: seq<State>) {
    && run != [] && Initial(run[0])
    && forall i :: 0 < i < |run| ==> Step(run[i - 1], run[i])
  }

  predicate AtRest(s: State) {
    s.callback == Idle && Blocked(s)
  }

  // ---------------------------------------------------------------------------------------
  // No lost update
  // ---------------------------------------------------------------------------------------

  predicate Shows(s: State) {
    s.led == Some(s.desired == 1) && s.current == s.desired
  }

  /** What the loop knows about the desired state when no signal is on its way to it. */
  predicate LoopInv(s: State) {
    match s.loop
    case Wait => (s.desired <= 1 ==> Shows(s)) && s.reported == Some(s.current)
    case TestOn => true
    case TestOff => s.desired != 1
    case SetLed(on) => s.desired == if on then 1 else 0
    case Copy => s.desired <= 1 && s.led == Some(s.desired == 1)
    case Publish => s.desired <= 1 ==> Shows(s)
  }

  predicate Inv(s: State) {
    && s.count <= 1
    && (s.count == 1 || s.callback == Give || LoopInv(s))
  }

  lemma StepKeepsInv(s: State, t: State)
    requires Inv(s) && Step(s, t)
    ensures Inv(t)
  {
  }

  lemma {:induction false} RunKeepsInv(run: seq<State>)
    requires IsRun(run)
    ensures forall i :: 0 <= i < |run| ==> Inv(run[i])
    decreases |run|
  {
    if |run| > 1 {
      var n := |run| - 1;
      RunKeepsInv(run[..n]);
      assert Inv(run[..n][n - 1]);
      StepKeepsInv(run[n - 1], run[n]);
    }
  }

  // ---------------------------------------------------------------------------------------
  // Which deltas count
  // ---------------------------------------------------------------------------------------

  /** The version is greater than every version before it. */
  predicate IsRecord(log: seq<Message>, i: nat)
    requires i < |log|
  {
    && log[i].Delta? && log[i].version > 0
    && forall j :: 0 <= j < i && log[j].Delta? ==> log[j].version < log[i].version
  }

  predicate Carries(log: seq<Message>, i: nat)
    requires i < |log|
  {
    IsRecord(log, i) && log[i].powerOn.Some?
  }

  /** The greatest version seen, 0 before any. */
  ghost predicate IsMaximum(log: seq<Message>, version: nat) {
    && (forall i :: 0 <= i < |log| && log[i].Delta? ==> log[i].version <= version)
    && (version == 0 || exists i :: 0 <= i < |log| && log[i].Delta? && log[i].version == version)
  }

  /** The powerOn of the last record-setting delta that has the field, 0 before any. */
  ghost predicate IsWanted(log: seq<Message>, value: nat) {
    || (value == 0 && forall i :: 0 <= i < |log| ==> !Carries(log, i))
    || (exists i :: 0 <= i < |log| && IsLastCarrier(log, i) && log[i].powerOn.value == value)
  }

  predicate IsLastCarrier(log: seq<Message>, i: nat)
    requires i < |log|
  {
    Carries(log, i) && forall j :: i < j < |log| ==> !Carries(log, j)
  }

  /** The desired state once the callback in progress has stored it. */
  function Latest(s: State): nat {
    if s.callback.Store? then s.callback.value else s.desired
  }

  ghost predicate Filtered(s: State) {
    IsMaximum(s.log, s.version) && IsWanted(s.log, Latest(s))
  }

  lemma RecordSnoc(log: seq<Message>, m: Message, i: nat)
    requires i < |log|
    ensures IsRecord(log + [m], i) == IsRecord(log, i)
    ensures Carries(log + [m], i) == Carries(log, i)
  {
    assert forall j :: 0 <= j <= i ==> (log + [m])[j] == log[j];
  }

  lemma DeliverFilters(s: State, m: Message)
    requires s.callback == Idle && Filtered(s)
    ensures Filtered(Delivered(s, m))
  {
    var log, n := s.log + [m], |s.log|;
    forall i | 0 <= i < n ensures Carries(log, i) == Carries(s.log, i) {
      RecordSnoc(s.log, m, i);
    }
    var newer := m.Delta? && m.version > s.version;
    assert IsRecord(log, n) <==> newer by {
      if IsRecord(log, n) && s.version > 0 {
        var i :| 0 <= i < n && s.log[i].Delta? && s.log[i].version == s.version;
        assert log[i].version < log[n].version;
      }
    }
    assert IsMaximum(log, Delivered(s, m).version) by {
      assert newer ==> log[n].version == m.version;
      if !newer && s.version > 0 {
        var i :| 0 <= i < n && s.log[i].Delta? && s.log[i].version == s.version;
        assert log[i] == s.log[i];
      }
    }
    if Carries(log, n) {
      assert IsLastCarrier(log, n);
    } else if exists i :: 0 <= i < n && IsLastCarrier(s.log, i) && s.log[i].powerOn.value == s.desired {
      var i :| 0 <= i < n && IsLastCarrier(s.log, i) && s.log[i].powerOn.value == s.desired;
      assert IsLastCarrier(log, i);
    }
  }

  lemma {:induction false} RunFilters(run: seq<State>)
    requires IsRun(run)
    ensures forall i :: 0 <= i < |run| ==> Filtered(run[i])
    decreases |run|
  {
    hide Filtered, Delivered;
    if |run| > 1 {
      var n := |run| - 1;
      RunFilters(run[..n]);
      var s, t := run[n - 1], run[n];
      assert Filtered(run[..n][n - 1]) && Step(s, t);
      if Deliver(s, t) {
        var m :| t == Delivered(s, m);
        DeliverFilters(s, m);
      } else {
        ProgressFilters(s, t);
      }
    } else {
      InitialFiltered(run[0]);
    }
  }

  lemma InitialFiltered(s: State)
    requires Initial(s)
    ensures Filtered(s)
  {
  }

  lemma ProgressFilters(s: State, t: State)
    requires Filtered(s) && Progress(s, t)
    ensures Filtered(t)
  {
    assert Latest(t) == Latest(s);
  }

  /**
   * Whenever the callback is idle and the loop is blocked, the version is the greatest that was
   * delivered, the desired state is that of the last record-setting delta that has one, the
   * last report is the current state, and, if the desired state is 0 or 1, the lamp and the
   * current state agree with it.
   */
  lemma NoLostUpdate(run: seq<State>, i: nat)
    requires IsRun(run) && i < |run| && AtRest(run[i])
    ensures IsMaximum(run[i].log, run[i].version) && IsWanted(run[i].log, run[i].desired)
    ensures run[i].reported == Some(run[i].current)
    ensures run[i].desired <= 1 ==> run[i].led == Some(run[i].desired == 1) && run[i].current == run[i].desired
  {
    RunKeepsInv(run);
    RunFilters(run);
    assert Inv(run[i]) && Filtered(run[i]);
  }

  /** The desired state is determined by the messages. */
  lemma WantedIsUnique(log: seq<Message>, a: nat, b: nat)
    requires IsWanted(log, a) && IsWanted(log, b)
    ensures a == b
  {
    if exists i :: 0 <= i < |log| && IsLastCarrier(log, i) && log[i].powerOn.value == a {
      var i :| 0 <= i < |log| && IsLastCarrier(log, i) && log[i].powerOn.value == a;
      var j :| 0 <= j < |log| && IsLastCarrier(log, j) && log[j].powerOn.value == b;
      assert i == j;
    }
  }

  /** The version never decreases, and stale deltas and duplicates leave all but the log alone. */
  lemma {:induction false} VersionGrows(run: seq<State>, i: nat, j: nat)
    requires IsRun(run) && i <= j < |run|
    ensures run[i].version <= run[j].version
    decreases j
  {
    if i < j {
      VersionGrows(run, i, j - 1);
      assert Step(run[j - 1], run[j]);
    }
  }

  lemma StaleDeltaDoesNothing(run: seq<State>, i: nat, m: Message)
    requires IsRun(run) && i < |run| && m.Delta?
    requires exists j :: 0 <= j < |run[i].log| && run[i].log[j].Delta? && m.version <= run[i].log[j].version
    ensures Delivered(run[i], m) == run[i].(log := run[i].log + [m])
  {
    RunFilters(run);
    assert Filtered(run[i]);
  }

  // ---------------------------------------------------------------------------------------
  // Coming to rest
  // ---------------------------------------------------------------------------------------

  /** How many steps are left at most if no message arrives. */
  function Rank(s: State): nat {
    (match s.callback case Idle => 0 case Store(_) => 10 case Give => 9)
    + 8 * s.count
    + (match s.loop
       case Wait => 0
       case TestOn => 5
       case TestOff => 4
       case SetLed(_) => 3
       case Copy => 2
       case Publish => 1)
  }

  /** Without messages every step comes closer to rest, and some step is possible until then. */
  lemma ComesToRest(s: State)
    ensures AtRest(s) <==> forall t :: !Progress(s, t)
    ensures forall t :: Progress(s, t) ==> Rank(t) < Rank(s)
  {
    if s.callback != Idle {
      assert Progress(s, CallbackNext(s));
    } else if !Blocked(s) {
      assert Progress(s, LoopNext(s));
    }
  }

  lemma RankBound(s: State)
    requires Inv(s)
    ensures Rank(s) <= 23
  {
  }

  /** From any state of a run, any steps without messages end after at most 23. */
  lemma {:induction false} QuietRunsAreShort(quiet: seq<State>)
    requires quiet != [] && Inv(quiet[0])
    requires forall i :: 0 < i < |quiet| ==> Progress(quiet[i - 1], quiet[i])
    ensures |quiet| - 1 <= Rank(quiet[0]) - Rank(quiet[|quiet| - 1]) && Rank(quiet[0]) <= 23
    decreases |quiet|
  {
    hide Rank, Progress, Inv;
    RankBound(quiet[0]);
    if |quiet| > 1 {
      var n := |quiet| - 1;
      QuietRunsAreShort(quiet[..n]);
      ComesToRest(quiet[n - 1]);
    }
  }

  // ---------------------------------------------------------------------------------------
  // Values that are neither 0 nor 1
  // ---------------------------------------------------------------------------------------

  /** Every delta that counts asks for 0 or 1, if it asks for anything. */
  predicate CarriersValid(log: seq<Message>) {
    forall i :: 0 <= i < |log| && Carries(log, i) ==> log[i].powerOn.value <= 1
  }

  predicate Valid(s: State) {
    && s.desired <= 1 && s.current <= 1 && (s.callback.Store? ==> s.callback.value <= 1)
    && (s.reported.Some? ==> s.reported.value <= 1)
  }

  /** A run in which exactly the messages of `log` arrive. */
  ghost predicate Delivers(run: seq<State>, log: seq<Message>) {
    IsRun(run) && run[|run| - 1].log == log
  }

  /** However the threads interleave, the current state stays 0 or 1. */
  ghost predicate NeverCurrent(log: seq<Message>) {
    forall run: seq<State>, i :: Delivers(run, log) && 0 <= i < |run| ==> run[i].current <= 1
  }

  /** However the threads interleave, only 0 or 1 is reported. */
  ghost predicate NeverReported(log: seq<Message>) {
    forall run: seq<State>, i :: Delivers(run, log) && 0 <= i < |run| && run[i].reported.Some? ==>
      run[i].reported.value <= 1
  }

  lemma CarriersSnoc(log: seq<Message>, m: Message)
    requires CarriersValid(log + [m])
    ensures CarriersValid(log)
  {
    forall i | 0 <= i < |log| && Carries(log, i) ensures log[i].powerOn.value <= 1 {
      RecordSnoc(log, m, i);
    }
  }

  lemma NewDeltaIsRecord(s: State, m: Message)
    requires Filtered(s) && m.Delta? && m.version > s.version
    ensures IsRecord(s.log + [m], |s.log|)
  {
    assert forall j :: 0 <= j < |s.log| ==> (s.log + [m])[j] == s.log[j];
  }

  lemma {:induction false} ValidStaysValid(run: seq<State>)
    requires IsRun(run) && CarriersValid(run[|run| - 1].log)
    ensures forall i :: 0 <= i < |run| ==> Valid(run[i])
    decreases |run|
  {
    if |run| > 1 {
      var n := |run| - 1;
      var s, t := run[n - 1], run[n];
      assert Step(s, t);
      if Deliver(s, t) {
        var m :| t == Delivered(s, m);
        CarriersSnoc(s.log, m);
        ValidPrefix(run);
        ValidDelivered(run, m);
      } else {
        ValidPrefix(run);
      }
    }
  }

  lemma {:induction false} ValidPrefix(run: seq<State>)
    requires IsRun(run) && |run| > 1 && CarriersValid(run[|run| - 2].log)
    ensures forall i :: 0 <= i < |run| - 1 ==> Valid(run[i])
    decreases |run|, 0
  {
    var n := |run| - 1;
    ValidStaysValid(run[..n]);
    assert forall i :: 0 <= i < n ==> run[..n][i] == run[i];
  }

  lemma ValidDelivered(run: seq<State>, m: Message)
    requires IsRun(run) && |run| > 1
    requires var s := run[|run| - 2];
             s.callback == Idle && Valid(s) && run[|run| - 1] == Delivered(s, m) && CarriersValid(s.log + [m])
    ensures Valid(run[|run| - 1])
  {
    var s := run[|run| - 2];
    RunFilters(run);
    assert Filtered(s);
    if m.Delta? && m.version > s.version && m.powerOn.Some? {
      NewDeltaIsRecord(s, m);
      assert Carries(s.log + [m], |s.log|);
    }
  }

  /** Messages that arrive while the loop stands still: the run goes on, and the callback has
      stored what counts. */
  lemma {:induction false} DeliverAll(run: seq<State>, messages: seq<Message>) returns (longer: seq<State>)
    requires IsRun(run) && run[|run| - 1].callback == Idle
    ensures IsRun(longer) && run <= longer
    ensures var s, t := run[|run| - 1], longer[|longer| - 1];
            t.callback == Idle && t.loop == s.loop && t.current == s.current && t.log == s.log + messages
    decreases |messages|
  {
    if messages == [] {
      longer := run;
    } else {
      var s := run[|run| - 1];
      var m := messages[0];
      var t := Delivered(s, m);
      assert Deliver(s, t);
      var next, _ := Then(run, s, t);
      if t.callback != Idle {
        next, t := Then(next, t, CallbackNext(t));
        next, t := Then(next, t, CallbackNext(t));
      }
      longer := DeliverAll(next, messages[1..]);
      assert s.log + [m] + messages[1..] == s.log + messages;
    }
  }

  /** A run that holds the loop right before it copies the desired state. */
  lemma UpToCopy() returns (run: seq<State>)
    ensures IsRun(run)
    ensures var s := run[|run| - 1]; s.callback == Idle && s.loop == Copy && s.log == []
  {
    var s := State(0, 0, 0, None, None, 1, Idle, Wait, []);
    run := [s];
    run, s := Then(run, s, State(0, 0, 0, None, None, 0, Idle, TestOn, []));
    run, s := Then(run, s, State(0, 0, 0, None, None, 0, Idle, TestOff, []));
    run, s := Then(run, s, State(0, 0, 0, None, None, 0, Idle, SetLed(false), []));
    run, s := Then(run, s, State(0, 0, 0, Some(false), None, 0, Idle, Copy, []));
  }

  /** A carrier that asks for anything else can become the current state and be reported. */
  lemma InvalidCarrierIsReported(log: seq<Message>, k: nat) returns (run: seq<State>, c: nat)
    requires k < |log| && Carries(log, k) && log[k].powerOn.value > 1
    ensures run != [] && Delivers(run, log) && c < |run|
    ensures run[c].current == log[k].powerOn.value && run[c].reported == Some(run[c].current)
  {
    hide Carries, IsRun;
    var upTo := UpToCopy();
    var wanted := DeliverAll(upTo, log[..k + 1]);
    assert wanted[|wanted| - 1].log == log[..k + 1];
    DesiredIsLast(wanted, log, k);
    var reached := CopyAndPublish(wanted);
    c := |reached| - 1;
    run := DeliverAll(reached, log[k + 1..]);
    assert run[c] == reached[c];
    assert log[..k + 1] + log[k + 1..] == log;
  }

  lemma CopyAndPublish(run: seq<State>) returns (longer: seq<State>)
    requires run != [] && IsRun(run) && run[|run| - 1].callback == Idle && run[|run| - 1].loop == Copy
    ensures longer != [] && IsRun(longer)
    ensures var s, t := run[|run| - 1], longer[|longer| - 1];
            t.callback == Idle && t.log == s.log && t.current == s.desired && t.reported == Some(t.current)
  {
    hide IsRun;
    var s := run[|run| - 1];
    StepLoop(s);
    longer, s := Then(run, s, LoopNext(s));
    StepLoop(s);
    longer, s := Then(longer, s, LoopNext(s));
  }

  lemma StepLoop(s: State)
    requires !Blocked(s)
    ensures Step(s, LoopNext(s))
  {
  }

  lemma DesiredIsLast(run: seq<State>, log: seq<Message>, k: nat)
    requires IsRun(run) && k < |log| && Carries(log, k)
    requires var s := run[|run| - 1]; s.callback == Idle && s.log == log[..k + 1]
    ensures run[|run| - 1].desired == log[k].powerOn.value
  {
    var s := run[|run| - 1];
    RunFilters(run);
    assert Filtered(s);
    assert Carries(s.log, k);
    assert IsLastCarrier(s.log, k);
    assert IsWanted(s.log, log[k].powerOn.value);
    WantedIsUnique(s.log, s.desired, log[k].powerOn.value);
  }

  /**
   * Exactly when a value that the loop refuses can become the current state, or be reported:
   * when a delta that counts carries one.  What stale deltas carry does not matter.
   */
  lemma RefusedStaysOutExactly(log: seq<Message>)
    ensures NeverCurrent(log) <==> CarriersValid(log)
    ensures NeverReported(log) <==> CarriersValid(log)
  {
    hide IsRun;
    if CarriersValid(log) {
      forall run, i | Delivers(run, log) && 0 <= i < |run| ensures Valid(run[i]) {
        ValidStaysValid(run);
      }
    } else {
      var k :| 0 <= k < |log| && Carries(log, k) && log[k].powerOn.value > 1;
      var run, c := InvalidCarrierIsReported(log, k);
      assert Delivers(run, log);
    }
  }

  /**
   * A value that the loop rejects can still become the current state and be reported: it
   * arrives between setting the lamp and copying the desired state.
   */
  lemma InvalidStateIsReported() returns (run: seq<State>)
    ensures IsRun(run)
    ensures var s := run[|run| - 1];
            AtRest(s) && s.desired == 2 && s.current == 2 && s.reported == Some(2) && s.led == Some(true)
  {
    var s;
    run, s := LampOn();
    run, s := RefusedArrives(run, s);
  }

  /** Up to the lamp being set, the desired state being 1. */
  lemma LampOn() returns (run: seq<State>, s: State)
    ensures run != [] && IsRun(run) && run[|run| - 1] == s
    ensures s == State(1, 1, 0, Some(true), None, 1, Idle, Copy, [Delta(1, Some(1))])
  {
    hide Given, IsRun;
    var on := Some(true);
    var first := [Delta(1, Some(1))];
    s := State(0, 0, 0, None, None, 1, Idle, Wait, []);
    run := [s];
    assert IsRun(run) by { StartIsRun(s); }
    assert Deliver(s, Delivered(s, Delta(1, Some(1))));
    run, s := Then(run, s, State(1, 0, 0, None, None, 1, Store(1), Wait, first));
    run, s := Then(run, s, State(1, 1, 0, None, None, 1, Give, Wait, first));
    run, s := Then(run, s, State(1, 1, 0, None, None, 0, Give, TestOn, first));
    GivenOnce();
    run, s := Then(run, s, State(1, 1, 0, None, None, 1, Idle, TestOn, first));
    run, s := Then(run, s, State(1, 1, 0, None, None, 1, Idle, SetLed(true), first));
    run, s := Then(run, s, State(1, 1, 0, on, None, 1, Idle, Copy, first));
  }

  lemma StartIsRun(s: State)
    requires Initial(s)
    ensures IsRun([s])
  {
  }

  /** A 2 arrives there, and both threads come to rest. */
  lemma RefusedArrives(before: seq<State>, start: State) returns (run: seq<State>, s: State)
    requires before != [] && IsRun(before) && before[|before| - 1] == start
    requires start == State(1, 1, 0, Some(true), None, 1, Idle, Copy, [Delta(1, Some(1))])
    ensures run != [] && IsRun(run) && run[|run| - 1] == s
    ensures AtRest(s) && s.desired == 2 && s.current == 2 && s.reported == Some(2) && s.led == Some(true)
  {
    hide Given, IsRun;
    run, s := before, start;
    var on := Some(true);
    var second := [Delta(1, Some(1)), Delta(2, Some(2))];
    GivenOnce();
    assert Deliver(s, Delivered(s, Delta(2, Some(2))));
    run, s := Then(run, s, State(2, 1, 0, on, None, 1, Store(2), Copy, second));
    run, s := Then(run, s, State(2, 2, 0, on, None, 1, Give, Copy, second));
    run, s := Then(run, s, State(2, 2, 2, on, None, 1, Give, Publish, second));
    run, s := Then(run, s, State(2, 2, 2, on, Some(2), 1, Give, Wait, second));
    run, s := Then(run, s, State(2, 2, 2, on, Some(2), 1, Idle, Wait, second));
    run, s := Then(run, s, State(2, 2, 2, on, Some(2), 0, Idle, TestOn, second));
    run, s := Then(run, s, State(2, 2, 2, on, Some(2), 0, Idle, TestOff, second));
    run, s := Then(run, s, State(2, 2, 2, on, Some(2), 0, Idle, Publish, second));
    run, s := Then(run, s, State(2, 2, 2, on, Some(2), 0, Idle, Wait, second));
  }

  lemma GivenOnce()
    ensures Given(0) == 1 && Given(1) == 1
  {
  }

  lemma Then(run: seq<State>, s: State, t: State) returns (longer: seq<State>, last: State)
    requires run != [] && IsRun(run) && run[|run| - 1] == s && Step(s, t)
    ensures longer != [] && IsRun(longer) && longer[|longer| - 1] == t && last == t && run <= longer
  {
    hide Step;
    longer, last := run + [t], t;
  }

  // ---------------------------------------------------------------------------------------
  // The two threads' own code
  // ---------------------------------------------------------------------------------------

  /** `s` leads to `t` when the other thread does not run in between. */
  ghost predicate Leads(s: State, t: State) {
    exists path: seq<State> :: Joins(path, s, t)
  }

  ghost predicate Joins(path: seq<State>, s: State, t: State) {
    && path != [] && path[0] == s && path[|path| - 1] == t
    && forall i :: 0 < i < |path| ==> Step(path[i - 1], path[i])
  }

  lemma LeadsOn(r: State, s: State, t: State)
    requires Leads(r, s) && Step(s, t)
    ensures Leads(r, t)
  {
    hide Step;
    var path :| Joins(path, r, s);
    assert Joins(path + [t], r, t);
  }

  lemma LeadsNowhere(s: State)
    ensures Leads(s, s)
  {
    assert Joins([s], s, s);
  }

  class Demo {
    var ulCurrentVersion: nat
    var ulDesiredPowerOnState: nat
    var ulCurrentPowerOnState: nat
    var led: Option<bool>
    var reported: Option<nat>
    var semaphore: nat
    ghost var log: seq<Message>

    /** The state with the two threads at the given points. */
    ghost function At(callback: CallbackPc, loop: LoopPc): State
      reads this
    {
      State(ulCurrentVersion, ulDesiredPowerOnState, ulCurrentPowerOnState, led, reported, semaphore,
            callback, loop, log)
    }

    constructor ()
      ensures Initial(At(Idle, Wait))
    {
      ulCurrentVersion, ulDesiredPowerOnState, ulCurrentPowerOnState := 0, 0, 0;
      led, reported, semaphore, log := None, None, 1, [];
    }

    /** `mmosal_sem_give`. */
    method SemGive() returns (given: bool)
      modifies this`semaphore
      ensures semaphore == Given(old(semaphore)) && (given <==> old(semaphore) == 0)
    {
      given := semaphore < 1;
      if given {
        semaphore := semaphore + 1;
      }
    }

    /** `shadow_update_callback`, wherever the loop is meanwhile. */
    method ShadowUpdateCallback(m: Message, ghost loop: LoopPc)
      modifies this
      ensures Leads(old(At(Idle, loop)), At(Idle, loop))
      ensures log == old(log) + [m]
      ensures ulCurrentPowerOnState == old(ulCurrentPowerOnState) && led == old(led) && reported == old(reported)
      ensures ulCurrentVersion ==
              if m.Delta? && m.version > old(ulCurrentVersion) then m.version else old(ulCurrentVersion)
      ensures if m.Delta? && m.version > old(ulCurrentVersion) && m.powerOn.Some?
              then ulDesiredPowerOnState == m.powerOn.value && semaphore >= 1
              else ulDesiredPowerOnState == old(ulDesiredPowerOnState) && semaphore == old(semaphore)
    {
      ghost var start := At(Idle, loop);
      LeadsNowhere(start);
      assert Deliver(start, Delivered(start, m));
      log := log + [m];
      if m.Other? || m.version <= ulCurrentVersion {
        LeadsOn(start, start, At(Idle, loop));
        return;
      }
      ulCurrentVersion := m.version;
      if m.powerOn.None? {
        LeadsOn(start, start, At(Idle, loop));
        return;
      }
      ghost var delivered := At(Store(m.powerOn.value), loop);
      LeadsOn(start, start, delivered);
      ulDesiredPowerOnState := m.powerOn.value;
      LeadsOn(start, delivered, At(Give, loop));
      ghost var stored := At(Give, loop);
      var _ := SemGive();
      LeadsOn(start, stored, At(Idle, loop));
    }

    /** One pass of `aws_shadow_loop`, once the semaphore lets it through. */
    method ShadowLoopPass(ghost callback: CallbackPc)
      requires semaphore > 0
      modifies this
      ensures Leads(old(At(callback, Wait)), At(callback, Wait))
      ensures semaphore == old(semaphore) - 1 && log == old(log) && ulCurrentVersion == old(ulCurrentVersion)
      ensures ulDesiredPowerOnState == old(ulDesiredPowerOnState)
      ensures if ulDesiredPowerOnState <= 1
              then led == Some(ulDesiredPowerOnState == 1) && ulCurrentPowerOnState == ulDesiredPowerOnState
              else led == old(led) && ulCurrentPowerOnState == old(ulCurrentPowerOnState)
      ensures reported == Some(ulCurrentPowerOnState)
    {
      ghost var start := At(callback, Wait);
      LeadsNowhere(start);
      semaphore := semaphore - 1;
      LeadsOn(start, start, At(callback, TestOn));
      ghost var tested := At(callback, TestOn);
      if ulDesiredPowerOnState == 1 {
        LeadsOn(start, tested, At(callback, SetLed(true)));
        SetAndCopy(start, callback, true);
      } else {
        LeadsOn(start, tested, At(callback, TestOff));
        if ulDesiredPowerOnState == 0 {
          LeadsOn(start, At(callback, TestOff), At(callback, SetLed(false)));
          SetAndCopy(start, callback, false);
        } else {
          LeadsOn(start, At(callback, TestOff), At(callback, Publish));
        }
      }
      ghost var copied := At(callback, Publish);
      reported := Some(ulCurrentPowerOnState);
      LeadsOn(start, copied, At(callback, Wait));
    }

    method SetAndCopy(ghost start: State, ghost callback: CallbackPc, on: bool)
      requires Leads(start, At(callback, SetLed(on)))
      modifies this`led, this`ulCurrentPowerOnState
      ensures Leads(start, At(callback, Publish))
      ensures led == Some(on) && ulCurrentPowerOnState == ulDesiredPowerOnState
    {
      ghost var before := At(callback, SetLed(on));
      led := Some(on);
      LeadsOn(start, before, At(callback, Copy));
      ghost var lit := At(callback, Copy);
      ulCurrentPowerOnState := ulDesiredPowerOnState;
      LeadsOn(start, lit, At(callback, Publish));
    }
  }
}
