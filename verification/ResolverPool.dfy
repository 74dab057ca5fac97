/** ResolveBatch and its workers: every interleaving of the feeder, the workers, the closer,
    the consumer and the two ways to interrupt them. */
module ResolverPool {
  import opened Resolver

  /** concurrency: number of workers and capacity of both channels, at least 1 (see New).
      hasDeadline: the context carries a deadline, which lets the rate limiter give up early. */
  datatype Config = Config(concurrency: nat, hasDeadline: bool)

  /** Where a worker goroutine stands, with the domain or result it holds. */
  datatype Worker =
    | Idle
    | Waiting(domain: string)
    | Resolving(domain: string)
    | Sending(result: ResolveResult)
    | Exited

  datatype Feeder = Feeding | Closing | Done

  datatype State = State(
    todo: seq<string>,
    feeder: Feeder,
    queue: seq<string>,
    queueClosed: bool,
    workers: seq<Worker>,
    results: seq<ResolveResult>,
    resultsClosed: bool,
    closerDone: bool,
    delivered: seq<ResolveResult>,
    dropped: seq<string>,
    cancelled: bool,
    closed: bool,
    panicked: bool)
  {
    predicate Interrupted() {
      cancelled || closed
    }

    /** The consumer has seen the result channel close. */
    predicate Drained() {
      resultsClosed && results == []
    }
  }

  datatype Step =
    | FeedSend
    | FeedStop
    | FeedClose
    | Take(w: nat)
    | SeeClosed(w: nat)
    | Quit(w: nat)
    | LimiterPass(w: nat)
    | LimiterFail(w: nat)
    | Resolve(w: nat, result: ResolveResult)
    | Send(w: nat)
    | Drop(w: nat)
    | CloseResults
    | Receive
    | Cancel
    | CloseResolver

  function Init(c: Config, input: seq<string>): State {
    State(input, Feeding, [], false, seq(c.concurrency, _ => Idle), [], false, false, [], [],
          false, false, false)
  }

  predicate Enabled(c: Config, s: State, step: Step) {
    match step
    case FeedSend => s.feeder == Feeding && s.todo != [] && (s.queueClosed || |s.queue| < c.concurrency)
    case FeedStop => s.feeder == Feeding && (s.todo == [] || s.Interrupted())
    case FeedClose => s.feeder == Closing
    case Take(w) => w < |s.workers| && s.workers[w] == Idle && s.queue != []
    case SeeClosed(w) => w < |s.workers| && s.workers[w] == Idle && s.queue == [] && s.queueClosed
    case Quit(w) => w < |s.workers| && s.workers[w] == Idle && s.Interrupted()
    case LimiterPass(w) => w < |s.workers| && s.workers[w].Waiting?
    case LimiterFail(w) => w < |s.workers| && s.workers[w].Waiting? && (s.cancelled || c.hasDeadline)
    case Resolve(w, r) => w < |s.workers| && s.workers[w].Resolving? && r.domain == s.workers[w].domain
    case Send(w) => w < |s.workers| && s.workers[w].Sending? && (s.resultsClosed || |s.results| < c.concurrency)
    case Drop(w) => w < |s.workers| && s.workers[w].Sending? && s.Interrupted()
    case CloseResults => !s.closerDone && forall w | 0 <= w < |s.workers| :: s.workers[w] == Exited
    case Receive => s.results != []
    case Cancel => !s.cancelled
    case CloseResolver => !s.closed
  }

  /** Sending on, or closing, a closed channel panics. */
  function Apply(c: Config, s: State, step: Step): State
    requires Enabled(c, s, step)
  {
    match step
    case FeedSend =>
      if s.queueClosed then s.(panicked := true)
      else s.(todo := s.todo[1..], queue := s.queue + [s.todo[0]])
    case FeedStop => s.(feeder := Closing)
    case FeedClose => if s.queueClosed then s.(panicked := true) else s.(feeder := Done, queueClosed := true)
    case Take(w) => s.(queue := s.queue[1..], workers := s.workers[w := Waiting(s.queue[0])])
    case SeeClosed(w) => s.(workers := s.workers[w := Exited])
    case Quit(w) => s.(workers := s.workers[w := Exited])
    case LimiterPass(w) => s.(workers := s.workers[w := Resolving(s.workers[w].domain)])
    case LimiterFail(w) =>
      s.(workers := s.workers[w := Exited], dropped := s.dropped + [s.workers[w].domain])
    case Resolve(w, r) => s.(workers := s.workers[w := Sending(r)])
    case Send(w) =>
      if s.resultsClosed then s.(panicked := true)
      else s.(workers := s.workers[w := Idle], results := s.results + [s.workers[w].result])
    case Drop(w) =>
      s.(workers := s.workers[w := Exited], dropped := s.dropped + [s.workers[w].result.domain])
    case CloseResults =>
      if s.resultsClosed then s.(panicked := true) else s.(closerDone := true, resultsClosed := true)
    case Receive => s.(results := s.results[1..], delivered := s.delivered + [s.results[0]])
    case Cancel => s.(cancelled := true)
    case CloseResolver => s.(closed := true)
  }

  // --- accounting -------------------------------------------------------------

  /** How often d occurs in xs. */
  function Occurs(xs: seq<string>, d: string): nat {
    if xs == [] then 0 else (if xs[0] == d then 1 else 0) + Occurs(xs[1..], d)
  }

  /** How many results for d are in rs. */
  function Results(rs: seq<ResolveResult>, d: string): nat {
    if rs == [] then 0 else (if rs[0].domain == d then 1 else 0) + Results(rs[1..], d)
  }

  predicate Holds(w: Worker, d: string) {
    match w
    case Idle => false
    case Waiting(e) => e == d
    case Resolving(e) => e == d
    case Sending(r) => r.domain == d
    case Exited => false
  }

  /** How many workers hold d. */
  function Held(ws: seq<Worker>, d: string): nat {
    if ws == [] then 0 else (if Holds(ws[0], d) then 1 else 0) + Held(ws[1..], d)
  }

  /** The copies of d, wherever they are now. */
  function Accounted(s: State, d: string): nat {
    Occurs(s.todo, d) + Occurs(s.queue, d) + Held(s.workers, d) + Results(s.results, d)
    + Results(s.delivered, d) + Occurs(s.dropped, d)
  }

  lemma {:induction false} HeldUpdate(ws: seq<Worker>, i: nat, w: Worker, d: string)
    requires i < |ws|
    ensures Held(ws[i := w], d) + (if Holds(ws[i], d) then 1 else 0) == Held(ws, d) + (if Holds(w, d) then 1 else 0)
  {
    if i == 0 {
      assert ws[0 := w][1..] == ws[1..];
    } else {
      assert ws[i := w][1..] == ws[1..][i - 1 := w] && ws[i := w][0] == ws[0];
      HeldUpdate(ws[1..], i - 1, w, d);
    }
  }

  lemma {:induction false} ResultsAppend(rs: seq<ResolveResult>, r: ResolveResult, d: string)
    ensures Results(rs + [r], d) == Results(rs, d) + (if r.domain == d then 1 else 0)
  {
    if rs == [] {
      assert rs + [r] == [r];
    } else {
      assert (rs + [r])[1..] == rs[1..] + [r];
      ResultsAppend(rs[1..], r, d);
    }
  }

  lemma {:induction false} OccursAppend(xs: seq<string>, x: string, d: string)
    ensures Occurs(xs + [x], d) == Occurs(xs, d) + (if x == d then 1 else 0)
  {
    if xs == [] {
      assert xs + [x] == [x];
    } else {
      assert (xs + [x])[1..] == xs[1..] + [x];
      OccursAppend(xs[1..], x, d);
    }
  }

  lemma {:induction false} NobodyHolds(ws: seq<Worker>, d: string)
    requires forall w | 0 <= w < |ws| :: !Holds(ws[w], d)
    ensures Held(ws, d) == 0
  {
    if ws != [] {
      NobodyHolds(ws[1..], d);
    }
  }

  /** The worker moves on with what it holds, or exits with nothing. */
  predicate KeepsHold(step: Step) {
    step.SeeClosed? || step.Quit? || step.LimiterPass? || step.Resolve?
  }

  /** The worker takes something up or gives it away. */
  predicate ChangesHold(step: Step) {
    step.Take? || step.LimiterFail? || step.Send? || step.Drop?
  }

  lemma KeepConserves(c: Config, s: State, step: Step, d: string)
    requires Enabled(c, s, step) && KeepsHold(step)
    ensures Accounted(Apply(c, s, step), d) == Accounted(s, d)
  {
    var worker := match step
      case LimiterPass(w) => Resolving(s.workers[w].domain)
      case Resolve(w, r) => Sending(r)
      case _ => Exited;
    assert Apply(c, s, step) == s.(workers := s.workers[step.w := worker]);
    HeldUpdate(s.workers, step.w, worker, d);
  }

  lemma TakeConserves(c: Config, s: State, w: nat, d: string)
    requires Enabled(c, s, Take(w))
    ensures Accounted(Apply(c, s, Take(w)), d) == Accounted(s, d)
  {
    HeldUpdate(s.workers, w, Waiting(s.queue[0]), d);
  }

  lemma SendConserves(c: Config, s: State, w: nat, d: string)
    requires Enabled(c, s, Send(w))
    ensures Accounted(Apply(c, s, Send(w)), d) == Accounted(s, d)
  {
    HeldUpdate(s.workers, w, Idle, d);
    ResultsAppend(s.results, s.workers[w].result, d);
  }

  lemma DropConserves(c: Config, s: State, step: Step, d: string)
    requires Enabled(c, s, step) && (step.LimiterFail? || step.Drop?)
    ensures Accounted(Apply(c, s, step), d) == Accounted(s, d)
  {
    HeldUpdate(s.workers, step.w, Exited, d);
    var worker := s.workers[step.w];
    OccursAppend(s.dropped, if worker.Waiting? then worker.domain else worker.result.domain, d);
  }

  lemma OtherConserves(c: Config, s: State, step: Step, d: string)
    requires Enabled(c, s, step) && !KeepsHold(step) && !ChangesHold(step)
    ensures Accounted(Apply(c, s, step), d) == Accounted(s, d)
  {
    if step == FeedSend {
      OccursAppend(s.queue, s.todo[0], d);
    } else if step == Receive {
      ResultsAppend(s.delivered, s.results[0], d);
    }
  }

  /** Every step moves domains around; none is lost or made up. */
  lemma StepConserves(c: Config, s: State, step: Step, d: string)
    requires Enabled(c, s, step)
    ensures Accounted(Apply(c, s, step), d) == Accounted(s, d)
  {
    if KeepsHold(step) {
      KeepConserves(c, s, step, d);
    } else if ChangesHold(step) {
      match step
      case Take(w) => TakeConserves(c, s, w, d);
      case Send(w) => SendConserves(c, s, w, d);
      case _ => DropConserves(c, s, step, d);
    } else {
      OtherConserves(c, s, step, d);
    }
  }

  // --- the invariant ------------------------------------------------------------

  predicate AllExited(s: State) {
    forall w | 0 <= w < |s.workers| :: s.workers[w] == Exited
  }

  predicate NoneExited(s: State) {
    forall w | 0 <= w < |s.workers| :: s.workers[w] != Exited
  }

  predicate Inv(c: Config, s: State) {
    && |s.workers| == c.concurrency >= 1
    && !s.panicked
    && |s.queue| <= c.concurrency && |s.results| <= c.concurrency
    && (s.queueClosed <==> s.feeder == Done)
    && (s.resultsClosed <==> s.closerDone)
    && (s.closerDone ==> AllExited(s))
    && (s.feeder != Feeding && !s.Interrupted() ==> s.todo == [])
    && (s.dropped != [] ==> s.Interrupted() || c.hasDeadline)
    && (!s.Interrupted() && s.dropped == [] ==> (s.queueClosed && s.queue == []) || NoneExited(s))
  }

  lemma InitInv(c: Config, input: seq<string>)
    requires c.concurrency >= 1
    ensures Inv(c, Init(c, input))
  {
  }

  lemma KeepStepInv(c: Config, s: State, step: Step)
    requires Inv(c, s) && Enabled(c, s, step) && KeepsHold(step)
    ensures Inv(c, Apply(c, s, step))
  {
    assert s.workers[step.w] != Exited;
  }

  lemma ChangeStepInv(c: Config, s: State, step: Step)
    requires Inv(c, s) && Enabled(c, s, step) && ChangesHold(step)
    ensures Inv(c, Apply(c, s, step))
  {
    assert s.workers[step.w] != Exited;
  }

  lemma OtherStepInv(c: Config, s: State, step: Step)
    requires Inv(c, s) && Enabled(c, s, step) && !KeepsHold(step) && !ChangesHold(step)
    ensures Inv(c, Apply(c, s, step))
  {
  }

  lemma StepInv(c: Config, s: State, step: Step)
    requires Inv(c, s) && Enabled(c, s, step)
    ensures Inv(c, Apply(c, s, step))
  {
    if KeepsHold(step) {
      KeepStepInv(c, s, step);
    } else if ChangesHold(step) {
      ChangeStepInv(c, s, step);
    } else {
      OtherStepInv(c, s, step);
    }
  }

  // --- runs ---------------------------------------------------------------------

  /** A run: each step enabled where it is taken. */
  ghost predicate Run(c: Config, s: State, steps: seq<Step>, t: State)
    decreases |steps|
  {
    if steps == [] then s == t
    else Enabled(c, s, steps[0]) && Run(c, Apply(c, s, steps[0]), steps[1..], t)
  }

  lemma {:induction false} RunInv(c: Config, s: State, steps: seq<Step>, t: State)
    requires Inv(c, s) && Run(c, s, steps, t)
    ensures Inv(c, t)
    decreases |steps|
  {
    if steps != [] {
      StepInv(c, s, steps[0]);
      RunInv(c, Apply(c, s, steps[0]), steps[1..], t);
    }
  }

  lemma {:induction false} RunConserves(c: Config, s: State, steps: seq<Step>, t: State, d: string)
    requires Run(c, s, steps, t)
    ensures Accounted(t, d) == Accounted(s, d)
    decreases |steps|
  {
    if steps != [] {
      StepConserves(c, s, steps[0], d);
      RunConserves(c, Apply(c, s, steps[0]), steps[1..], t, d);
    }
  }

  /** In every reachable state each copy of each input domain is in exactly one place; a domain
      is dropped only after an interruption or under a deadline; and no channel is misused. */
  lemma Conservation(c: Config, input: seq<string>, steps: seq<Step>, t: State, d: string)
    requires c.concurrency >= 1 && Run(c, Init(c, input), steps, t)
    ensures Occurs(input, d) == Occurs(t.todo, d) + Occurs(t.queue, d) + Held(t.workers, d)
                              + Results(t.results, d) + Results(t.delivered, d) + Occurs(t.dropped, d)
    ensures t.dropped != [] ==> t.cancelled || t.closed || c.hasDeadline
    ensures !t.panicked
  {
    InitInv(c, input);
    RunInv(c, Init(c, input), steps, t);
    NobodyHolds(Init(c, input).workers, d);
    RunConserves(c, Init(c, input), steps, t, d);
  }

  /** Every input domain has its results, received or waiting to be. */
  ghost predicate OneResultEach(input: seq<string>, t: State) {
    forall d :: Results(t.results, d) + Results(t.delivered, d) == Occurs(input, d)
  }

  /** Once the result channel has closed without an interruption, there is one result per input domain
      exactly if no worker dropped a domain. */
  lemma OneResultEachIff(c: Config, input: seq<string>, steps: seq<Step>, t: State)
    requires c.concurrency >= 1 && Run(c, Init(c, input), steps, t)
    requires t.resultsClosed && !t.Interrupted()
    ensures OneResultEach(input, t) <==> t.dropped == []
  {
    InitInv(c, input);
    RunInv(c, Init(c, input), steps, t);
    assert t.workers[0] == Exited;
    forall d
      ensures t.dropped == [] ==> Results(t.results, d) + Results(t.delivered, d) == Occurs(input, d)
    {
      Conservation(c, input, steps, t, d);
      NobodyHolds(t.workers, d);
    }
    if t.dropped != [] {
      Conservation(c, input, steps, t, t.dropped[0]);
      assert Results(t.results, t.dropped[0]) + Results(t.delivered, t.dropped[0]) < Occurs(input, t.dropped[0]);
    }
  }

  /** Left alone and without a deadline, the result channel closes only when there is one result per input
      domain. */
  lemma ClosesAfterOneResultEach(c: Config, input: seq<string>, steps: seq<Step>, t: State, d: string)
    requires c.concurrency >= 1 && Run(c, Init(c, input), steps, t)
    requires t.resultsClosed && !t.Interrupted() && !c.hasDeadline
    ensures Results(t.results, d) + Results(t.delivered, d) == Occurs(input, d)
  {
    Conservation(c, input, steps, t, d);
    OneResultEachIff(c, input, steps, t);
  }

  lemma {:induction false} RunExtend(c: Config, s: State, steps: seq<Step>, t: State, step: Step)
    requires Run(c, s, steps, t) && Enabled(c, t, step)
    ensures Run(c, s, steps + [step], Apply(c, t, step))
    decreases |steps|
  {
    if steps == [] {
      assert Run(c, Apply(c, s, step), [], Apply(c, t, step));
      assert ([] + [step])[1..] == [];
    } else {
      RunExtend(c, Apply(c, s, steps[0]), steps[1..], t, step);
      assert (steps + [step])[1..] == steps[1..] + [step];
    }
  }

  ghost predicate Reachable(c: Config, input: seq<string>, t: State) {
    exists steps :: Run(c, Init(c, input), steps, t)
  }

  lemma Go(c: Config, input: seq<string>, s: State, step: Step) returns (t: State)
    requires Reachable(c, input, s) && Enabled(c, s, step)
    ensures t == Apply(c, s, step) && Reachable(c, input, t)
  {
    t := Apply(c, s, step);
    var steps :| Run(c, Init(c, input), steps, s);
    RunExtend(c, Init(c, input), steps, s, step);
  }

  /** After the close nothing is sent: the channel only drains. */
  lemma NoSendAfterClose(c: Config, s: State, step: Step)
    requires Inv(c, s) && s.resultsClosed && Enabled(c, s, step)
    ensures Apply(c, s, step).resultsClosed
    ensures Apply(c, s, step).results == s.results || (step == Receive && Apply(c, s, step).results == s.results[1..])
  {
  }

  // --- progress -----------------------------------------------------------------

  function WorkerRank(w: Worker): nat {
    match w
    case Idle => 1
    case Waiting(_) => 5
    case Resolving(_) => 4
    case Sending(_) => 3
    case Exited => 0
  }

  function WorkersRank(ws: seq<Worker>): nat {
    if ws == [] then 0 else WorkerRank(ws[0]) + WorkersRank(ws[1..])
  }

  /** How many steps can still follow. */
  function Rank(s: State): nat {
    6 * |s.todo| + 5 * |s.queue| + WorkersRank(s.workers) + |s.results|
    + (match s.feeder case Feeding => 2 case Closing => 1 case Done => 0)
    + (if s.closerDone then 0 else 1) + (if s.cancelled then 0 else 1) + (if s.closed then 0 else 1)
  }

  lemma {:induction false} WorkersRankUpdate(ws: seq<Worker>, i: nat, w: Worker)
    requires i < |ws|
    ensures WorkersRank(ws[i := w]) + WorkerRank(ws[i]) == WorkersRank(ws) + WorkerRank(w)
  {
    if i == 0 {
      assert ws[0 := w][1..] == ws[1..];
    } else {
      assert ws[i := w][1..] == ws[1..][i - 1 := w] && ws[i := w][0] == ws[0];
      WorkersRankUpdate(ws[1..], i - 1, w);
    }
  }

  lemma KeepStepRank(c: Config, s: State, step: Step)
    requires Inv(c, s) && Enabled(c, s, step) && KeepsHold(step)
    ensures Rank(Apply(c, s, step)) < Rank(s)
  {
    WorkersRankUpdate(s.workers, step.w, Apply(c, s, step).workers[step.w]);
  }

  lemma ChangeStepRank(c: Config, s: State, step: Step)
    requires Inv(c, s) && Enabled(c, s, step) && ChangesHold(step)
    ensures Rank(Apply(c, s, step)) < Rank(s)
  {
    WorkersRankUpdate(s.workers, step.w, Apply(c, s, step).workers[step.w]);
  }

  lemma StepRank(c: Config, s: State, step: Step)
    requires Inv(c, s) && Enabled(c, s, step)
    ensures Rank(Apply(c, s, step)) < Rank(s)
  {
    if KeepsHold(step) {
      KeepStepRank(c, s, step);
    } else if ChangesHold(step) {
      ChangeStepRank(c, s, step);
    }
  }

  predicate External(step: Step) {
    step == Cancel || step == CloseResolver
  }

  /** As long as the consumer has not seen the close, somebody can move (the consumer included). */
  lemma SomebodyCanMove(c: Config, s: State) returns (step: Step)
    requires Inv(c, s) && !s.Drained()
    ensures Enabled(c, s, step) && !External(step)
  {
    if s.results != [] {
      return Receive;
    }
    if AllExited(s) {
      return CloseResults;
    }
    var w :| 0 <= w < |s.workers| && s.workers[w] != Exited;
    match s.workers[w]
    case Waiting(d) => return LimiterPass(w);
    case Resolving(d) => return Resolve(w, ResolveResult(d, [], [], Failed, ContextDone));
    case Sending(r) => return Send(w);
    case Idle =>
      if s.queue != [] {
        return Take(w);
      }
      if s.queueClosed {
        return SeeClosed(w);
      }
      if s.feeder == Closing {
        return FeedClose;
      }
      return if s.todo == [] then FeedStop else FeedSend;
  }

  /** After an interruption the pool closes its channel by itself: until it has, somebody other than the
      consumer can move. */
  lemma PoolCanMove(c: Config, s: State) returns (step: Step)
    requires Inv(c, s) && s.Interrupted() && !s.resultsClosed
    ensures Enabled(c, s, step) && !External(step) && step != Receive
  {
    if AllExited(s) {
      return CloseResults;
    }
    var w :| 0 <= w < |s.workers| && s.workers[w] != Exited;
    match s.workers[w]
    case Waiting(d) => return LimiterPass(w);
    case Resolving(d) => return Resolve(w, ResolveResult(d, [], [], Failed, ContextDone));
    case Sending(r) => return Drop(w);
    case Idle => return Quit(w);
  }

  lemma {:induction false} RunIsShort(c: Config, s: State, steps: seq<Step>, t: State)
    requires Inv(c, s) && Run(c, s, steps, t)
    ensures |steps| + Rank(t) <= Rank(s)
    decreases |steps|
  {
    if steps != [] {
      StepInv(c, s, steps[0]);
      StepRank(c, s, steps[0]);
      RunIsShort(c, Apply(c, s, steps[0]), steps[1..], t);
    }
  }

  lemma {:induction false} IdleRank(ws: seq<Worker>)
    requires forall w | 0 <= w < |ws| :: ws[w] == Idle
    ensures WorkersRank(ws) == |ws|
  {
    if ws != [] {
      IdleRank(ws[1..]);
    }
  }

  /** Nothing can happen any more unless it comes from outside. */
  ghost predicate Stuck(c: Config, t: State) {
    forall step | Enabled(c, t, step) :: External(step)
  }

  lemma StuckIsDrained(c: Config, t: State)
    requires Inv(c, t) && Stuck(c, t)
    ensures t.Drained()
  {
    if !t.Drained() {
      var step := SomebodyCanMove(c, t);
    }
  }

  /** An interrupted run in which nobody receives ends with the channel closed. */
  lemma InterruptedPoolCloses(c: Config, input: seq<string>, steps: seq<Step>, t: State)
    requires c.concurrency >= 1 && Run(c, Init(c, input), steps, t) && t.Interrupted()
    requires forall step | Enabled(c, t, step) :: External(step) || step == Receive
    ensures t.resultsClosed
  {
    InitInv(c, input);
    RunInv(c, Init(c, input), steps, t);
    if !t.resultsClosed {
      var step := PoolCanMove(c, t);
    }
  }

  /** Every run is finite, */
  lemma RunsAreFinite(c: Config, input: seq<string>, steps: seq<Step>, t: State)
    requires c.concurrency >= 1 && Run(c, Init(c, input), steps, t)
    ensures |steps| <= 6 * |input| + c.concurrency + 5
  {
    InitInv(c, input);
    IdleRank(Init(c, input).workers);
    RunIsShort(c, Init(c, input), steps, t);
  }

  /** ... and a run in which the consumer keeps receiving ends by seeing the close; left alone it
      has then received exactly one result per input domain. */
  lemma DrainingConsumerSeesClose(c: Config, input: seq<string>, steps: seq<Step>, t: State)
    requires c.concurrency >= 1 && Run(c, Init(c, input), steps, t) && Stuck(c, t)
    ensures t.Drained()
    ensures !t.Interrupted() && !c.hasDeadline ==> forall d :: Results(t.delivered, d) == Occurs(input, d)
  {
    InitInv(c, input);
    RunInv(c, Init(c, input), steps, t);
    StuckIsDrained(c, t);
    if !t.Interrupted() && !c.hasDeadline {
      forall d
        ensures Results(t.delivered, d) == Occurs(input, d)
      {
        ClosesAfterOneResultEach(c, input, steps, t, d);
      }
    }
  }

  // --- when a batch left alone is complete ---------------------------------------------

  /** From any state, without interrupting, to one where the consumer has seen the close. */
  lemma {:induction false} RunOn(c: Config, input: seq<string>, s: State) returns (t: State)
    requires Reachable(c, input, s) && Inv(c, s) && !s.Interrupted() && s.dropped != []
    ensures Reachable(c, input, t) && t.Drained() && !t.Interrupted() && t.dropped != []
    decreases Rank(s)
  {
    if s.Drained() {
      return s;
    }
    var step := SomebodyCanMove(c, s);
    var next := Go(c, input, s, step);
    StepInv(c, s, step);
    StepRank(c, s, step);
    t := RunOn(c, input, next);
  }

  /** With a deadline the limiter may give up before the context is done: for any number of workers and any
      input, the channel can close, and be drained, short of a result though nobody interrupted. */
  lemma DeadlineCanDrop(c: Config, input: seq<string>) returns (t: State)
    requires c.concurrency >= 1 && c.hasDeadline && input != []
    ensures Reachable(c, input, t) && t.Drained() && !t.Interrupted() && t.dropped != []
  {
    var s := Init(c, input);
    assert Run(c, s, [], s);
    InitInv(c, input);
    StepInv(c, s, FeedSend);
    s := Go(c, input, s, FeedSend);
    StepInv(c, s, Take(0));
    s := Go(c, input, s, Take(0));
    StepInv(c, s, LimiterFail(0));
    s := Go(c, input, s, LimiterFail(0));
    t := RunOn(c, input, s);
  }

  /** A batch left alone always delivers one result per input domain exactly if its context has no deadline,
      or there is nothing to resolve. */
  lemma CompleteIff(c: Config, input: seq<string>)
    requires c.concurrency >= 1
    ensures (forall t | Reachable(c, input, t) && t.Drained() && !t.Interrupted() :: OneResultEach(input, t))
       <==> !c.hasDeadline || input == []
  {
    forall t | Reachable(c, input, t) && t.Drained() && !t.Interrupted() && (!c.hasDeadline || input == [])
      ensures OneResultEach(input, t)
    {
      var steps :| Run(c, Init(c, input), steps, t);
      OneResultEachIff(c, input, steps, t);
      if t.dropped != [] {
        Conservation(c, input, steps, t, t.dropped[0]);
        assert false;
      }
    }
    if c.hasDeadline && input != [] {
      var t := DeadlineCanDrop(c, input);
      var steps :| Run(c, Init(c, input), steps, t);
      OneResultEachIff(c, input, steps, t);
    }
  }
}
