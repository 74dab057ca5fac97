/** Run, Cancel and the single run slot of the orchestrator: every interleaving of any number of
    goroutines, each of which may call Run and Cancel as often as it likes. A step is one atomic
    operation or one critical section. */
module Orchestrator {
  import opened Collections

  const MAX_HISTORY := 10

  /** The published RunStatus; report holds the run id of its report. A run id is at least 1. */
  datatype Status = Status(running: bool, id: nat, report: Option<nat>)

  /** What became of a run: the report in History, with whether the pipeline got to its end. */
  datatype Outcome = Outcome(id: nat, succeeded: bool)

  /** Where a goroutine stands: the first group is outside the slot. */
  datatype Goroutine =
    | Idle
    | Refused                            // Run: lost the race, has yet to read the run id it reports
    | Cancelling                         // Cancel: saw running, has yet to call cancelFn
    | Won                                // Run: has the slot, no number
    | Numbered(id: nat)
    | Armed(id: nat)                     // has stored its cancelFn
    | Working(id: nat)                   // has published its status
    | Succeeding(id: nat)                // has reached the success path
    | Recording(id: nat, succeeded: bool)
    | Ending(id: nat)                    // history written, deferred cancel() to come
    | Leaving(id: nat)                   // deferred running.Store(false) to come

  /** cancelFn names the context it cancels by its run's id, 0 for nil. ended holds the contexts whose
      cancel function has been called. log is every outcome ever put into history. */
  datatype State = State(
    threads: seq<Goroutine>,
    running: bool,
    counter: nat,
    current: Status,
    cancelFn: nat,
    ended: set<nat>,
    history: seq<nat>,
    log: seq<Outcome>)

  datatype Action =
    | Refuse | ReportBusy
    | Win | Number | Arm | Show | Succeed | Fail | Settle | Record | EndContext | Leave
    | FindIdle | FindRunning | CallCancel

  function Init(goroutines: nat): State {
    State(seq(goroutines, _ => Idle), false, 0, Status(false, 0, None), 0, {}, [], [])
  }

  predicate Enabled(s: State, t: nat, a: Action) {
    && t < |s.threads|
    && match a
       case Refuse => s.threads[t] == Idle && s.running
       case ReportBusy => s.threads[t] == Refused
       case Win => s.threads[t] == Idle && !s.running
       case Number => s.threads[t] == Won
       case Arm => s.threads[t].Numbered?
       case Show => s.threads[t].Armed?
       case Succeed => s.threads[t].Working?
       case Fail => s.threads[t].Working?
       case Settle => s.threads[t].Succeeding?
       case Record => s.threads[t].Recording?
       case EndContext => s.threads[t].Ending?
       case Leave => s.threads[t].Leaving?
       case FindIdle => s.threads[t] == Idle && !s.running
       case FindRunning => s.threads[t] == Idle && s.running
       case CallCancel => s.threads[t] == Cancelling
  }

  /** The history slice after one more report. */
  function Push(history: seq<nat>, id: nat): seq<nat> {
    (if |history| >= MAX_HISTORY then history[1..] else history) + [id]
  }

  function Apply(s: State, t: nat, a: Action): State
    requires Enabled(s, t, a)
  {
    var pc := s.threads[t];
    match a
    case Refuse => s.(threads := s.threads[t := Refused])
    case ReportBusy => s.(threads := s.threads[t := Idle])
    case Win => s.(threads := s.threads[t := Won], running := true)
    case Number => s.(threads := s.threads[t := Numbered(s.counter + 1)], counter := s.counter + 1)
    case Arm => s.(threads := s.threads[t := Armed(pc.id)], cancelFn := pc.id)
    case Show => s.(threads := s.threads[t := Working(pc.id)], current := Status(true, pc.id, None))
    case Succeed => s.(threads := s.threads[t := Succeeding(pc.id)])
    case Fail => s.(threads := s.threads[t := Recording(pc.id, false)])
    case Settle =>
      s.(threads := s.threads[t := Recording(pc.id, true)],
         current := s.current.(running := false, report := Some(pc.id)))
    case Record =>
      s.(threads := s.threads[t := Ending(pc.id)],
         history := Push(s.history, pc.id), log := s.log + [Outcome(pc.id, pc.succeeded)])
    case EndContext => s.(threads := s.threads[t := Leaving(pc.id)], ended := s.ended + {pc.id})
    case Leave => s.(threads := s.threads[t := Idle], running := false)
    case FindIdle => s
    case FindRunning => s.(threads := s.threads[t := Cancelling])
    case CallCancel =>
      s.(threads := s.threads[t := Idle], ended := if s.cancelFn == 0 then s.ended else s.ended + {s.cancelFn})
  }

  /** What the calls return. */
  function BusyId(s: State): nat {
    s.current.id
  }

  predicate CancelSucceeds(s: State) {
    s.cancelFn != 0
  }

  // --- the invariant ------------------------------------------------------------------

  predicate HoldsSlot(g: Goroutine) {
    !(g.Idle? || g.Refused? || g.Cancelling?)
  }

  /** The slot holder's context exists and can be cancelled through cancelFn. */
  predicate HasArmed(g: Goroutine) {
    HoldsSlot(g) && !g.Won? && !g.Numbered?
  }

  /** The slot holder's run id is the published one. */
  predicate HasShown(g: Goroutine) {
    HasArmed(g) && !g.Armed?
  }

  /** current as the last recorded run left it. */
  predicate LeftBehind(s: State) {
    s.current ==
      if s.log == [] then Status(false, 0, None)
      else if s.log[|s.log| - 1].succeeded then Status(false, |s.log|, Some(|s.log|))
      else Status(true, |s.log|, None)
  }

  /** The contexts of the runs 1 to n are over. */
  ghost predicate EndedUpTo(s: State, n: nat) {
    forall i | 1 <= i <= n :: i in s.ended
  }

  ghost predicate Fits(s: State, g: Goroutine) {
    var n := |s.log|;
    match g
    case Idle => true
    case Refused => true
    case Cancelling => true
    case Won => s.counter == n && s.cancelFn == n && LeftBehind(s) && EndedUpTo(s, n)
    case Numbered(id) => id == s.counter == n + 1 && s.cancelFn == n && LeftBehind(s) && EndedUpTo(s, n)
    case Armed(id) => id == s.counter == s.cancelFn == n + 1 && LeftBehind(s) && EndedUpTo(s, n)
    case Working(id) =>
      id == s.counter == s.cancelFn == n + 1 && s.current == Status(true, id, None) && EndedUpTo(s, n)
    case Succeeding(id) =>
      id == s.counter == s.cancelFn == n + 1 && s.current == Status(true, id, None) && EndedUpTo(s, n)
    case Recording(id, ok) =>
      && id == s.counter == s.cancelFn == n + 1 && EndedUpTo(s, n)
      && s.current == (if ok then Status(false, id, Some(id)) else Status(true, id, None))
    case Ending(id) => n >= 1 && id == s.counter == s.cancelFn == n && LeftBehind(s) && EndedUpTo(s, n - 1)
    case Leaving(id) => n >= 1 && id == s.counter == s.cancelFn == n && LeftBehind(s) && EndedUpTo(s, n)
  }

  /** The last ten of the runs 1 to n. */
  function LastRuns(n: nat): seq<nat> {
    var k := if n < MAX_HISTORY then n else MAX_HISTORY;
    seq(k, i requires 0 <= i < k => n - k + i + 1)
  }

  ghost predicate OneHolder(s: State) {
    && (forall t, u | 0 <= t < |s.threads| && 0 <= u < |s.threads| ::
          HoldsSlot(s.threads[t]) && HoldsSlot(s.threads[u]) ==> t == u)
    && (s.running <==> exists t | 0 <= t < |s.threads| :: HoldsSlot(s.threads[t]))
  }

  ghost predicate Inv(s: State) {
    && OneHolder(s)
    && (forall t | 0 <= t < |s.threads| :: Fits(s, s.threads[t]))
    && (!s.running ==> Fits(s, Won))
    && (forall i | 0 <= i < |s.log| :: s.log[i].id == i + 1)
    && s.history == LastRuns(|s.log|)
    && (forall i | i in s.ended :: 1 <= i <= s.cancelFn)
  }

  lemma InitInv(goroutines: nat)
    ensures Inv(Init(goroutines))
  {
  }

  lemma PushLastRuns(n: nat)
    ensures Push(LastRuns(n), n + 1) == LastRuns(n + 1)
  {
  }

  /** Steps that leave the slot alone. */
  predicate Outside(a: Action) {
    a.Refuse? || a.ReportBusy? || a.FindIdle? || a.FindRunning? || a.CallCancel?
  }

  lemma OneHolderStep(s: State, t: nat, a: Action)
    requires Inv(s) && Enabled(s, t, a)
    ensures OneHolder(Apply(s, t, a))
  {
    var s2 := Apply(s, t, a);
    assert forall u | 0 <= u < |s.threads| && u != t :: s2.threads[u] == s.threads[u];
    if HoldsSlot(s2.threads[t]) {
      assert s2.running;
    } else if HoldsSlot(s.threads[t]) {
      assert a == Leave;
    } else {
      assert forall u | 0 <= u < |s.threads| :: HoldsSlot(s2.threads[u]) == HoldsSlot(s.threads[u]);
    }
  }

  lemma OutsideStep(s: State, t: nat, a: Action)
    requires Inv(s) && Enabled(s, t, a) && Outside(a)
    ensures Inv(Apply(s, t, a))
  {
    OneHolderStep(s, t, a);
    var s2 := Apply(s, t, a);
    forall u | 0 <= u < |s.threads|
      ensures Fits(s2, s2.threads[u])
    {
      assert Fits(s, s.threads[u]);
    }
  }

  lemma HolderStep(s: State, t: nat, a: Action)
    requires Inv(s) && Enabled(s, t, a) && !Outside(a)
    ensures Fits(Apply(s, t, a), Apply(s, t, a).threads[t])
    ensures a == Leave ==> Fits(Apply(s, t, a), Won)
  {
    assert Fits(s, s.threads[t]);
  }

  lemma RecordsStep(s: State, t: nat, a: Action)
    requires Inv(s) && Enabled(s, t, a) && !Outside(a)
    ensures var s2 := Apply(s, t, a);
            && (forall i | 0 <= i < |s2.log| :: s2.log[i].id == i + 1)
            && s2.history == LastRuns(|s2.log|)
            && (forall i | i in s2.ended :: 1 <= i <= s2.cancelFn)
  {
    assert Fits(s, s.threads[t]);
    PushLastRuns(|s.log|);
  }

  lemma SlotStep(s: State, t: nat, a: Action)
    requires Inv(s) && Enabled(s, t, a) && !Outside(a)
    ensures Inv(Apply(s, t, a))
  {
    OneHolderStep(s, t, a);
    HolderStep(s, t, a);
    RecordsStep(s, t, a);
    var s2 := Apply(s, t, a);
    forall u | 0 <= u < |s.threads| && u != t
      ensures Fits(s2, s2.threads[u])
    {
      assert s2.threads[u] == s.threads[u];
      assert a == Win || HoldsSlot(s.threads[t]);
      assert !HoldsSlot(s2.threads[u]);
    }
  }

  lemma StepInv(s: State, t: nat, a: Action)
    requires Inv(s) && Enabled(s, t, a)
    ensures Inv(Apply(s, t, a))
  {
    if Outside(a) {
      OutsideStep(s, t, a);
    } else {
      SlotStep(s, t, a);
    }
  }

  // --- runs ------------------------------------------------------------------------------

  datatype Step = Step(t: nat, a: Action)

  /** An interleaving: each step enabled where it is taken. */
  ghost predicate Run(s: State, steps: seq<Step>, end: State)
    decreases |steps|
  {
    if steps == [] then s == end
    else Enabled(s, steps[0].t, steps[0].a) && Run(Apply(s, steps[0].t, steps[0].a), steps[1..], end)
  }

  lemma {:induction false} RunInv(s: State, steps: seq<Step>, end: State)
    requires Inv(s) && Run(s, steps, end)
    ensures Inv(end)
    decreases |steps|
  {
    if steps != [] {
      StepInv(s, steps[0].t, steps[0].a);
      RunInv(Apply(s, steps[0].t, steps[0].a), steps[1..], end);
    }
  }

  ghost predicate Reachable(s: State) {
    exists n: nat, steps :: Run(Init(n), steps, s)
  }

  lemma ReachableInv(s: State)
    requires Reachable(s)
    ensures Inv(s)
  {
    var n: nat, steps :| Run(Init(n), steps, s);
    InitInv(n);
    RunInv(Init(n), steps, s);
  }

  // --- what every interleaving keeps --------------------------------------------------------

  /** Single flight. */
  lemma AtMostOneRuns(s: State, t: nat, u: nat)
    requires Reachable(s) && t < |s.threads| && u < |s.threads|
    requires HoldsSlot(s.threads[t]) && HoldsSlot(s.threads[u])
    ensures t == u && s.running
  {
    ReachableInv(s);
  }

  /** History is the last ten outcomes, by consecutive ascending run ids up to the newest. */
  lemma HistoryIsRecent(s: State)
    requires Reachable(s)
    ensures |s.history| <= MAX_HISTORY && |s.history| <= |s.log|
    ensures |s.history| < MAX_HISTORY ==> |s.history| == |s.log|
    ensures forall i | 0 <= i < |s.history| :: s.history[i] == |s.log| - |s.history| + i + 1
    ensures forall i | 0 <= i < |s.history| :: s.history[i] == s.log[|s.log| - |s.history| + i].id
  {
    ReachableInv(s);
  }

  ghost predicate RecordedOnce(s: State, id: nat) {
    exists i | 0 <= i < |s.log| ::
      s.log[i].id == id && forall j | 0 <= j < |s.log| && s.log[j].id == id :: j == i
  }

  /** Every run that was given a number is recorded exactly once, before it frees the slot: the only
      numbered run that may be missing is the one that holds the slot and has not reached Ending. */
  lemma EachRunRecordedOnce(s: State, id: nat)
    requires Reachable(s) && 1 <= id <= s.counter
    ensures RecordedOnce(s, id) <==>
            !exists t | 0 <= t < |s.threads| ::
               HoldsSlot(s.threads[t]) && !s.threads[t].Won? && !s.threads[t].Ending? && !s.threads[t].Leaving?
               && s.threads[t].id == id
  {
    ReachableInv(s);
    if id <= |s.log| {
      assert s.log[id - 1].id == id;
    }
  }

  lemma FreeSlotMeansAllRecorded(s: State, id: nat)
    requires Reachable(s) && !s.running && 1 <= id <= s.counter
    ensures RecordedOnce(s, id) && id in s.ended
  {
    ReachableInv(s);
    EachRunRecordedOnce(s, id);
  }

  /** A Cancel that ends a live context ends the slot holder's, and no other. */
  lemma CancelHitsOnlyTheHolder(s: State, t: nat)
    requires Reachable(s) && Enabled(s, t, CallCancel)
    ensures Apply(s, t, CallCancel).ended != s.ended ==>
              exists u | 0 <= u < |s.threads| ::
                HasArmed(s.threads[u]) && Apply(s, t, CallCancel).ended == s.ended + {s.threads[u].id}
  {
    ReachableInv(s);
    if Apply(s, t, CallCancel).ended != s.ended {
      assert !s.running ==> s.cancelFn == 0 || s.cancelFn in s.ended;
      var u :| 0 <= u < |s.threads| && HoldsSlot(s.threads[u]);
      assert Fits(s, s.threads[u]);
    }
  }

  /** The run with this id holds the slot. */
  predicate InFlight(s: State, id: nat) {
    exists u | 0 <= u < |s.threads| :: HoldsSlot(s.threads[u]) && !s.threads[u].Won? && s.threads[u].id == id
  }

  /** Cancel ends the context of the goroutine in the slot exactly when that has stored its cancel function;
      before that, the call reaches the context of an earlier run, and still succeeds if there was one. */
  lemma CancelStopsRunIff(s: State, t: nat, u: nat)
    requires Reachable(s) && Enabled(s, t, CallCancel)
    requires u < |s.threads| && HoldsSlot(s.threads[u])
    ensures !s.threads[u].Won? && s.threads[u].id in Apply(s, t, CallCancel).ended <==> HasArmed(s.threads[u])
    ensures CancelSucceeds(s) <==> HasArmed(s.threads[u]) || s.log != []
  {
    ReachableInv(s);
    assert Fits(s, s.threads[u]);
  }

  /** With the slot free by then, Cancel ends nothing, and succeeds exactly if there was a run before. */
  lemma LateCancelIsIdle(s: State, t: nat)
    requires Reachable(s) && Enabled(s, t, CallCancel) && !s.running
    ensures Apply(s, t, CallCancel).ended == s.ended
    ensures CancelSucceeds(s) <==> s.log != []
  {
    ReachableInv(s);
    assert s.cancelFn == 0 || s.cancelFn in s.ended;
  }

  /** ErrBusy names the run in flight exactly when some goroutine in the slot has published its status. If
      none has, or the slot has become free by then, it names the run before, or 0. */
  lemma BusyNamesHolderIff(s: State, t: nat)
    requires Reachable(s) && Enabled(s, t, ReportBusy)
    ensures InFlight(s, BusyId(s)) <==> exists u | 0 <= u < |s.threads| :: HasShown(s.threads[u])
    ensures !InFlight(s, BusyId(s)) ==> BusyId(s) == |s.log|
  {
    ReachableInv(s);
    if u :| 0 <= u < |s.threads| && HoldsSlot(s.threads[u]) {
      assert Fits(s, s.threads[u]);
      assert HasShown(s.threads[u]) ==> s.threads[u].id == BusyId(s);
    }
  }

  /** With the slot free, Status still says running exactly when the last run failed. */
  lemma StatusAfterRun(s: State)
    requires Reachable(s) && !s.running
    ensures s.current.running <==> s.log != [] && !s.log[|s.log| - 1].succeeded
    ensures s.current.id == s.counter == |s.log|
  {
    ReachableInv(s);
  }

  /** The window before a run has stored its cancel function and published its status: a concurrent Run is
      told the run in flight is number 0, and a concurrent Cancel that nothing runs. */
  lemma EarlyWindowExample()
    ensures exists s :: Reachable(s) && s.threads == [Numbered(1), Refused, Cancelling]
                     && BusyId(s) == 0 && !CancelSucceeds(s)
  {
    var s0 := Init(3);
    var s1 := Apply(s0, 0, Win);
    var s2 := Apply(s1, 0, Number);
    var s3 := Apply(s2, 1, Refuse);
    var s4 := Apply(s3, 2, FindRunning);
    assert Run(s4, [], s4);
    assert Run(s3, [Step(2, FindRunning)], s4);
    assert Run(s2, [Step(1, Refuse)] + [Step(2, FindRunning)], s4);
    assert Run(s1, [Step(0, Number)] + ([Step(1, Refuse)] + [Step(2, FindRunning)]), s4);
    assert Run(s0, [Step(0, Win)] + ([Step(0, Number)] + ([Step(1, Refuse)] + [Step(2, FindRunning)])), s4);
    assert Reachable(s4);
    assert s4.threads == [Numbered(1), Refused, Cancelling];
  }

  // --- progress -----------------------------------------------------------------------------

  /** Own steps of the holder until it has left. */
  function StepsLeft(g: Goroutine): nat {
    match g
    case Won => 9
    case Numbered(_) => 8
    case Armed(_) => 7
    case Working(_) => 6
    case Succeeding(_) => 5
    case Recording(_, _) => 3
    case Ending(_) => 2
    case Leaving(_) => 1
    case _ => 0
  }

  /** What a holder does next; from Working it may also Succeed. */
  function NextOf(g: Goroutine): Action
    requires HoldsSlot(g)
  {
    match g
    case Won => Number
    case Numbered(_) => Arm
    case Armed(_) => Show
    case Working(_) => Fail
    case Succeeding(_) => Settle
    case Recording(_, _) => Record
    case Ending(_) => EndContext
    case _ => Leave
  }

  /** The holder always has a next step, and its last step frees the slot. */
  lemma HolderCanMove(s: State, u: nat)
    requires u < |s.threads| && HoldsSlot(s.threads[u])
    ensures Enabled(s, u, NextOf(s.threads[u]))
    ensures StepsLeft(s.threads[u]) == 1 ==> !Apply(s, u, NextOf(s.threads[u])).running
  {
  }

  /** The holder nears the end with each of its own steps and stays where it is while others move; so a
      run whose pipeline returns frees the slot after at most nine steps of its own. */
  lemma HolderProgress(s: State, t: nat, u: nat, a: Action)
    requires Reachable(s) && u < |s.threads| && HoldsSlot(s.threads[u]) && Enabled(s, t, a)
    ensures t == u ==> StepsLeft(Apply(s, t, a).threads[u]) < StepsLeft(s.threads[u])
    ensures t != u ==> Apply(s, t, a).threads[u] == s.threads[u] && Outside(a) && Apply(s, t, a).running
  {
    ReachableInv(s);
    assert s.running;
    if t != u {
      assert !HoldsSlot(s.threads[t]);
    }
  }
}
