/** The config watcher: every interleaving of publishers, subscribers and consumers. A step is one
    critical section, one select of deliver, or one receive. Snapshots are told apart by their version. */
module Watcher {
  import opened Collections

  /** A subscription. seen = consumed + buffer; since is the version at the time of Subscribe, missed
      the versions whose delivery here was given up; waiting: a receiver is blocked on the channel. */
  datatype Channel = Channel(
    registered: bool,
    closed: bool,
    buffer: seq<nat>,
    waiting: bool,
    consumed: seq<nat>,
    since: nat,
    missed: set<nat>)
  {
    function Seen(): seq<nat> {
      consumed + buffer
    }
  }

  /** Publish, once it has left its critical section: version goes to the channels in rest.
      Sending: at the outer select, again when retried. Draining: the outer select found rest[0] full, with
      taken snapshots consumed by then; at the inner select. */
  datatype Publisher =
    | Quiet
    | Sending(version: nat, rest: seq<nat>, retried: bool)
    | Draining(version: nat, rest: seq<nat>, taken: nat)

  datatype State = State(
    version: nat,
    channels: seq<Channel>,
    closed: bool,
    publishers: seq<Publisher>,
    panicked: bool)

  datatype Step =
    | Begin(p: nat, order: seq<nat>)
    | TrySend(p: nat)
    | TryDrain(p: nat)
    | Finish(p: nat)
    | Subscribe
    | Unsubscribe(c: nat)
    | Close
    | Receive(c: nat)
    | Wait(c: nat)
    | StopWaiting(c: nat)

  function Init(publishers: nat): State {
    State(1, [], false, seq(publishers, _ => Quiet), false)
  }

  /** order lists the registered channels, as the range over the map may. */
  ghost predicate ListsRegistered(s: State, order: seq<nat>) {
    && (forall c | c in order :: c < |s.channels| && s.channels[c].registered)
    && (forall c | 0 <= c < |s.channels| && s.channels[c].registered :: c in order)
    && NoDup(order)
  }

  predicate Busy(g: Publisher) {
    !g.Quiet? && g.rest != []
  }

  ghost predicate Enabled(s: State, step: Step) {
    && !s.panicked
    && match step
       case Begin(p, order) => p < |s.publishers| && s.publishers[p].Quiet? && !s.closed && ListsRegistered(s, order)
       case TrySend(p) => p < |s.publishers| && s.publishers[p].Sending? && s.publishers[p].rest != []
                          && s.publishers[p].rest[0] < |s.channels|
       case TryDrain(p) => p < |s.publishers| && s.publishers[p].Draining? && s.publishers[p].rest != []
                           && s.publishers[p].rest[0] < |s.channels|
       case Finish(p) => p < |s.publishers| && s.publishers[p].Sending? && s.publishers[p].rest == []
       case Subscribe => true
       case Unsubscribe(c) => c < |s.channels|
       case Close => true
       case Receive(c) => c < |s.channels| && s.channels[c].buffer != []
       case Wait(c) => c < |s.channels| && s.channels[c].buffer == [] && !s.channels[c].closed && !s.channels[c].waiting
       case StopWaiting(c) => c < |s.channels| && s.channels[c].waiting
  }

  /** Deregistered and closed, if it was registered; a blocked receiver wakes up. */
  function Shut(ch: Channel): Channel {
    if ch.registered then ch.(registered := false, closed := true, waiting := false) else ch
  }

  /** The outer select of deliver on an open channel: what the channel becomes, None if not ready. */
  function Offer(cap: nat, ch: Channel, version: nat): Option<Channel> {
    if ch.waiting then Some(ch.(waiting := false, consumed := ch.consumed + [version]))
    else if |ch.buffer| < cap then Some(ch.(buffer := ch.buffer + [version]))
    else None
  }

  function Drained(ch: Channel): Channel
    requires ch.buffer != []
  {
    ch.(buffer := ch.buffer[1..])
  }

  function Taken(ch: Channel): Channel
    requires ch.buffer != []
  {
    ch.(consumed := ch.consumed + [ch.buffer[0]], buffer := ch.buffer[1..])
  }

  function Apply(cap: nat, s: State, step: Step): State
    requires Enabled(s, step)
  {
    match step
    case Begin(p, order) =>
      s.(version := s.version + 1, publishers := s.publishers[p := Sending(s.version + 1, order, false)])
    case TrySend(p) =>
      var g := s.publishers[p];
      var c := g.rest[0];
      if s.channels[c].closed then s.(panicked := true)
      else
        (match Offer(cap, s.channels[c], g.version)
         case Some(ch) => s.(channels := s.channels[c := ch],
                             publishers := s.publishers[p := Sending(g.version, g.rest[1..], false)])
         case None => s.(publishers := s.publishers[p := Draining(g.version, g.rest, |s.channels[c].consumed|)]))
    case TryDrain(p) =>
      var g := s.publishers[p];
      var c := g.rest[0];
      var ch := s.channels[c];
      if ch.buffer != [] then
        s.(channels := s.channels[c := Drained(ch)],
           publishers := s.publishers[p := Sending(g.version, g.rest, true)])
      else if ch.closed then s.(publishers := s.publishers[p := Sending(g.version, g.rest, true)])
      else
        s.(channels := s.channels[c := ch.(missed := ch.missed + {g.version})],
           publishers := s.publishers[p := Sending(g.version, g.rest[1..], false)])
    case Finish(p) => s.(publishers := s.publishers[p := Quiet])
    case Subscribe => s.(channels := s.channels + [Channel(true, false, [], false, [], s.version, {})])
    case Unsubscribe(c) => s.(channels := s.channels[c := Shut(s.channels[c])])
    case Close =>
      if s.closed then s
      else s.(closed := true,
              channels := seq(|s.channels|, i requires 0 <= i < |s.channels| => Shut(s.channels[i])))
    case Receive(c) =>
      var ch := s.channels[c];
      s.(channels := s.channels[c := Taken(ch)])
    case Wait(c) => s.(channels := s.channels[c := s.channels[c].(waiting := true)])
    case StopWaiting(c) => s.(channels := s.channels[c := s.channels[c].(waiting := false)])
  }

  // --- one channel ------------------------------------------------------------------

  lemma OfferSeen(cap: nat, ch: Channel, version: nat)
    requires ch.waiting ==> ch.buffer == []
    requires Offer(cap, ch, version).Some?
    ensures Offer(cap, ch, version).value.Seen() == ch.Seen() + [version]
    ensures forall v | v in Offer(cap, ch, version).value.Seen() :: v in ch.Seen() || v == version
  {
  }

  lemma TakenSeen(ch: Channel)
    requires ch.buffer != []
    ensures Taken(ch).Seen() == ch.Seen()
  {
  }

  lemma DrainedSeen(ch: Channel)
    requires ch.buffer != []
    ensures forall v | v in Drained(ch).Seen() :: v in ch.Seen()
    ensures Increasing(ch.Seen()) ==> Increasing(Drained(ch).Seen())
  {
    var k, xs, ys := |ch.consumed|, ch.Seen(), Drained(ch).Seen();
    assert forall i | 0 <= i < |ys| :: ys[i] == if i < k then xs[i] else xs[i + 1];
    if Increasing(xs) {
      forall i, j | 0 <= i < j < |ys|
        ensures ys[i] < ys[j]
      {
        assert xs[if i < k then i else i + 1] < xs[if j < k then j else j + 1];
      }
    }
  }

  ghost predicate Increasing(xs: seq<nat>) {
    forall i, j | 0 <= i < j < |xs| :: xs[i] < xs[j]
  }

  ghost predicate Below(xs: seq<nat>, bound: nat) {
    forall v | v in xs :: v < bound
  }

  lemma IncreasingAppend(xs: seq<nat>, v: nat)
    requires Increasing(xs) && Below(xs, v)
    ensures Increasing(xs + [v])
  {
    forall i | 0 <= i < |xs|
      ensures xs[i] < v
    {
      assert xs[i] in xs;
    }
  }

  // --- any number of publishers ---------------------------------------------------------

  ghost predicate ChannelOk(cap: nat, version: nat, ch: Channel) {
    && |ch.buffer| <= cap && ch.since <= version
    && (ch.waiting ==> ch.buffer == [] && !ch.closed)
    && (ch.registered <==> !ch.closed)
    && (forall v | v in ch.Seen() :: ch.since < v <= version)
  }

  ghost predicate PublisherOk(s: State, g: Publisher) {
    !g.Quiet? ==>
      && g.version <= s.version && NoDup(g.rest)
      && (g.Draining? || g.retried ==> g.rest != [])
      && (forall c | c in g.rest :: c < |s.channels| && s.channels[c].since < g.version)
  }

  ghost predicate Inv(cap: nat, s: State) {
    && (forall c | 0 <= c < |s.channels| :: ChannelOk(cap, s.version, s.channels[c]))
    && (forall p | 0 <= p < |s.publishers| :: PublisherOk(s, s.publishers[p]))
  }

  /** The channel a step works on; the others change at most by being shut. */
  function Target(s: State, step: Step): Option<nat> {
    match step
    case TrySend(p) => if p < |s.publishers| && Busy(s.publishers[p]) then Some(s.publishers[p].rest[0]) else None
    case TryDrain(p) => if p < |s.publishers| && Busy(s.publishers[p]) then Some(s.publishers[p].rest[0]) else None
    case Receive(c) => Some(c)
    case _ => None
  }

  lemma OtherChannels(cap: nat, s: State, step: Step, c: nat)
    requires Enabled(s, step) && c < |s.channels| && Target(s, step) != Some(c)
    ensures var ch, ch2 := s.channels[c], Apply(cap, s, step).channels[c];
            && ch2.Seen() == ch.Seen() && ch2.consumed == ch.consumed && ch2.buffer == ch.buffer
            && ch2.since == ch.since && ch2.missed == ch.missed
            && (ch.closed ==> ch2.closed) && (ch2.registered ==> ch.registered)
  {
  }

  lemma TargetStep(cap: nat, s: State, step: Step, c: nat)
    requires Inv(cap, s) && Enabled(s, step) && c < |s.channels| && Target(s, step) == Some(c)
    ensures ChannelOk(cap, Apply(cap, s, step).version, Apply(cap, s, step).channels[c])
    ensures Apply(cap, s, step).channels[c].since == s.channels[c].since
  {
    var ch := s.channels[c];
    assert ChannelOk(cap, s.version, ch);
    if step.Receive? {
      TakenSeen(ch);
    } else {
      var g := s.publishers[step.p];
      assert PublisherOk(s, g);
      assert g.rest[0] in g.rest;
      var ch2 := Apply(cap, s, step).channels[c];
      if step.TryDrain? && ch.buffer != [] {
        DrainedSeen(ch);
        assert ch2 == Drained(ch);
      } else if step.TrySend? && !ch.closed && Offer(cap, ch, g.version).Some? {
        OfferSeen(cap, ch, g.version);
        assert ch2 == Offer(cap, ch, g.version).value;
      } else {
        assert ch2.Seen() == ch.Seen();
      }
    }
  }

  lemma OtherStep(cap: nat, s: State, step: Step, c: nat)
    requires Inv(cap, s) && Enabled(s, step) && c < |Apply(cap, s, step).channels| && Target(s, step) != Some(c)
    ensures ChannelOk(cap, Apply(cap, s, step).version, Apply(cap, s, step).channels[c])
    ensures c < |s.channels| ==> Apply(cap, s, step).channels[c].since == s.channels[c].since
  {
    if c < |s.channels| {
      assert ChannelOk(cap, s.version, s.channels[c]);
      OtherChannels(cap, s, step, c);
    }
  }

  lemma PublisherStep(cap: nat, s: State, step: Step, p: nat)
    requires Inv(cap, s) && Enabled(s, step) && p < |s.publishers|
    ensures PublisherOk(Apply(cap, s, step), Apply(cap, s, step).publishers[p])
  {
    var s2 := Apply(cap, s, step);
    var g, g2 := s.publishers[p], s2.publishers[p];
    assert PublisherOk(s, g);
    if step.Begin? && step.p == p {
      forall c | c in g2.rest
        ensures c < |s2.channels| && s2.channels[c].since < g2.version
      {
        assert ChannelOk(cap, s.version, s.channels[c]);
      }
    } else if !g2.Quiet? {
      forall c | c in g2.rest
        ensures c < |s2.channels| && s2.channels[c].since < g2.version
      {
        assert c in g.rest;
        SinceStays(cap, s, step, c);
      }
    }
  }

  lemma SinceStays(cap: nat, s: State, step: Step, c: nat)
    requires Enabled(s, step) && c < |s.channels|
    ensures c < |Apply(cap, s, step).channels| && Apply(cap, s, step).channels[c].since == s.channels[c].since
  {
  }

  lemma StepInv(cap: nat, s: State, step: Step)
    requires Inv(cap, s) && Enabled(s, step)
    ensures Inv(cap, Apply(cap, s, step))
  {
    var s2 := Apply(cap, s, step);
    forall c | 0 <= c < |s2.channels|
      ensures ChannelOk(cap, s2.version, s2.channels[c])
    {
      if c < |s.channels| && Target(s, step) == Some(c) {
        TargetStep(cap, s, step, c);
      } else {
        OtherStep(cap, s, step, c);
      }
    }
    forall p | 0 <= p < |s2.publishers|
      ensures PublisherOk(s2, s2.publishers[p])
    {
      PublisherStep(cap, s, step, p);
    }
  }

  // --- one publisher ---------------------------------------------------------------------

  predicate Pending(g: Publisher, c: nat) {
    !g.Quiet? && c in g.rest
  }

  /** Version v has reached the subscriber as its newest snapshot, or was given up. */
  ghost predicate Current(ch: Channel, v: nat) {
    if v in ch.missed then Below(ch.Seen(), v) else |ch.Seen()| > 0 && ch.Seen()[|ch.Seen()| - 1] == v
  }

  /** What holds of channel c while g is the only publisher. */
  ghost predicate Tracks(cap: nat, version: nat, g: Publisher, ch: Channel, c: nat) {
    && Increasing(ch.Seen())
    && (forall m | m in ch.missed :: m <= version)
    && (Pending(g, c) ==> Below(ch.Seen(), g.version) && g.version !in ch.missed)
    && (!Pending(g, c) && ch.registered && ch.since < version ==> Current(ch, version))
    && (g.Draining? && g.rest != [] && g.rest[0] == c ==> |ch.consumed| - g.taken + |ch.buffer| == cap)
    && (g.Sending? && g.retried && g.rest != [] && g.rest[0] == c ==> ch.closed || |ch.buffer| < cap)
  }

  ghost predicate Serial(cap: nat, s: State) {
    && Inv(cap, s)
    && |s.publishers| == 1
    && (!s.publishers[0].Quiet? ==> s.publishers[0].version == s.version)
    && (forall c | 0 <= c < |s.channels| :: Tracks(cap, s.version, s.publishers[0], s.channels[c], c))
  }

  /** A step leaves channel c as Tracks wants it. */
  ghost predicate KeepsTracks(cap: nat, s: State, step: Step, c: nat)
    requires Enabled(s, step)
  {
    var s2 := Apply(cap, s, step);
    |s2.publishers| == 1 && (c < |s2.channels| ==> Tracks(cap, s2.version, s2.publishers[0], s2.channels[c], c))
  }

  lemma TryTracks(cap: nat, s: State, step: Step, c: nat)
    requires Serial(cap, s) && Enabled(s, step) && c < |s.channels|
    requires (step.TrySend? || step.TryDrain?) && Target(s, step) == Some(c)
    ensures KeepsTracks(cap, s, step, c)
  {
    var g, ch := s.publishers[0], s.channels[c];
    assert PublisherOk(s, g) && ChannelOk(cap, s.version, ch) && Tracks(cap, s.version, g, ch, c);
    assert c in g.rest && c !in g.rest[1..];
    var ch2 := Apply(cap, s, step).channels[c];
    if step.TryDrain? && ch.buffer != [] {
      DrainedSeen(ch);
      assert ch2 == Drained(ch);
    } else if step.TrySend? && !ch.closed && Offer(cap, ch, g.version).Some? {
      OfferSeen(cap, ch, g.version);
      IncreasingAppend(ch.Seen(), g.version);
      assert ch2 == Offer(cap, ch, g.version).value;
    } else {
      assert ch2.Seen() == ch.Seen();
    }
  }

  lemma PassedTracks(cap: nat, s: State, step: Step, c: nat)
    requires Serial(cap, s) && Enabled(s, step) && c < |s.channels|
    requires step.TrySend? || step.TryDrain?
    requires Target(s, step) != Some(c)
    ensures KeepsTracks(cap, s, step, c)
  {
    var g, ch := s.publishers[0], s.channels[c];
    assert PublisherOk(s, g) && Tracks(cap, s.version, g, ch, c);
    assert Apply(cap, s, step).channels[c] == ch;
    var g2 := Apply(cap, s, step).publishers[0];
    assert g.rest == [g.rest[0]] + g.rest[1..];
    assert Pending(g2, c) == Pending(g, c);
  }

  lemma BeginTracks(cap: nat, s: State, step: Step, c: nat)
    requires Serial(cap, s) && Enabled(s, step) && c < |s.channels| && step.Begin?
    ensures KeepsTracks(cap, s, step, c)
  {
    var g, ch := s.publishers[0], s.channels[c];
    assert ChannelOk(cap, s.version, ch) && Tracks(cap, s.version, g, ch, c);
  }

  lemma FinishTracks(cap: nat, s: State, step: Step, c: nat)
    requires Serial(cap, s) && Enabled(s, step) && c < |s.channels| && step.Finish?
    ensures KeepsTracks(cap, s, step, c)
  {
    assert Tracks(cap, s.version, s.publishers[0], s.channels[c], c);
  }

  predicate BySubscriber(step: Step) {
    step.Subscribe? || step.Unsubscribe? || step.Close? || step.Receive? || step.Wait? || step.StopWaiting?
  }

  /** Tracks survives what a subscriber can do to a channel. */
  lemma TracksCarries(cap: nat, version: nat, g: Publisher, ch: Channel, ch2: Channel, c: nat)
    requires Tracks(cap, version, g, ch, c)
    requires ch2.Seen() == ch.Seen() && |ch2.buffer| <= |ch.buffer|
    requires ch2.since == ch.since && ch2.missed == ch.missed
    requires (ch.closed ==> ch2.closed) && (ch2.registered ==> ch.registered)
    ensures Tracks(cap, version, g, ch2, c)
  {
    assert |ch2.consumed| + |ch2.buffer| == |ch2.Seen()| == |ch.consumed| + |ch.buffer|;
  }

  lemma ReceiveTracks(cap: nat, s: State, c: nat)
    requires Serial(cap, s) && Enabled(s, Receive(c))
    ensures KeepsTracks(cap, s, Receive(c), c)
  {
    TakenSeen(s.channels[c]);
    TracksCarries(cap, s.version, s.publishers[0], s.channels[c], Taken(s.channels[c]), c);
  }

  lemma SubscriptionTracks(cap: nat, s: State, c: nat)
    requires Serial(cap, s) && Enabled(s, Subscribe) && c == |s.channels|
    ensures KeepsTracks(cap, s, Subscribe, c)
  {
    var g := s.publishers[0];
    assert PublisherOk(s, g);
    assert Busy(g) ==> g.rest[0] in g.rest;
  }

  lemma SubscriberTracks(cap: nat, s: State, step: Step, c: nat)
    requires Serial(cap, s) && Enabled(s, step) && BySubscriber(step)
    ensures KeepsTracks(cap, s, step, c)
  {
    SamePublishers(cap, s, step);
    if step == Receive(c) {
      ReceiveTracks(cap, s, c);
    } else if c < |s.channels| {
      OtherChannels(cap, s, step, c);
      TracksCarries(cap, s.version, s.publishers[0], s.channels[c], Apply(cap, s, step).channels[c], c);
    } else if step == Subscribe && c == |s.channels| {
      SubscriptionTracks(cap, s, c);
    }
  }

  lemma SamePublishers(cap: nat, s: State, step: Step)
    requires Enabled(s, step) && BySubscriber(step)
    ensures var s2 := Apply(cap, s, step);
            && s2.publishers == s.publishers && s2.version == s.version
            && |s2.channels| == |s.channels| + (if step == Subscribe then 1 else 0)
  {
  }

  lemma SameChannels(cap: nat, s: State, step: Step)
    requires Enabled(s, step) && !BySubscriber(step)
    ensures |Apply(cap, s, step).channels| == |s.channels| && |Apply(cap, s, step).publishers| == |s.publishers|
  {
  }

  lemma TracksStep(cap: nat, s: State, step: Step, c: nat)
    requires Serial(cap, s) && Enabled(s, step)
    ensures KeepsTracks(cap, s, step, c)
  {
    if BySubscriber(step) {
      SubscriberTracks(cap, s, step, c);
    } else if c >= |s.channels| {
      SameChannels(cap, s, step);
    } else if step.Begin? {
      BeginTracks(cap, s, step, c);
    } else if step.Finish? {
      FinishTracks(cap, s, step, c);
    } else if Target(s, step) == Some(c) {
      TryTracks(cap, s, step, c);
    } else {
      PassedTracks(cap, s, step, c);
    }
  }

  lemma SerialStep(cap: nat, s: State, step: Step)
    requires Serial(cap, s) && Enabled(s, step)
    ensures Serial(cap, Apply(cap, s, step))
  {
    StepInv(cap, s, step);
    var s2 := Apply(cap, s, step);
    forall c | 0 <= c < |s2.channels|
      ensures Tracks(cap, s2.version, s2.publishers[0], s2.channels[c], c)
    {
      TracksStep(cap, s, step, c);
      assert KeepsTracks(cap, s, step, c);
    }
  }

  // --- runs -------------------------------------------------------------------------------

  ghost predicate Run(cap: nat, s: State, steps: seq<Step>, end: State)
    decreases |steps|
  {
    if steps == [] then s == end
    else Enabled(s, steps[0]) && Run(cap, Apply(cap, s, steps[0]), steps[1..], end)
  }

  ghost predicate Reachable(cap: nat, publishers: nat, s: State) {
    exists steps :: Run(cap, Init(publishers), steps, s)
  }

  lemma {:induction false} RunInv(cap: nat, s: State, steps: seq<Step>, end: State)
    requires Inv(cap, s) && Run(cap, s, steps, end)
    ensures Inv(cap, end) && |end.publishers| == |s.publishers|
    ensures Serial(cap, s) ==> Serial(cap, end)
    decreases |steps|
  {
    if steps != [] {
      StepInv(cap, s, steps[0]);
      if Serial(cap, s) {
        SerialStep(cap, s, steps[0]);
      }
      RunInv(cap, Apply(cap, s, steps[0]), steps[1..], end);
    }
  }

  lemma ReachableInv(cap: nat, publishers: nat, s: State)
    requires Reachable(cap, publishers, s)
    ensures Inv(cap, s)
    ensures publishers == 1 ==> Serial(cap, s)
  {
    var steps :| Run(cap, Init(publishers), steps, s);
    RunInv(cap, Init(publishers), steps, s);
  }

  /** With any publishers: a subscriber sees only snapshots published after it subscribed, never one
      that is not published yet, and at most cap of them wait for it. */
  lemma SeesOnlyLater(cap: nat, publishers: nat, s: State, c: nat, v: nat)
    requires Reachable(cap, publishers, s) && c < |s.channels|
    ensures v in s.channels[c].Seen() ==> s.channels[c].since < v <= s.version
    ensures |s.channels[c].buffer| <= cap
  {
    ReachableInv(cap, publishers, s);
    assert ChannelOk(cap, s.version, s.channels[c]);
  }

  /** With one publisher: what a subscriber has consumed and then what waits for it ascend strictly. */
  lemma VersionsAscend(cap: nat, s: State, c: nat)
    requires Reachable(cap, 1, s) && c < |s.channels|
    ensures Increasing(s.channels[c].consumed + s.channels[c].buffer)
  {
    ReachableInv(cap, 1, s);
    assert Tracks(cap, s.version, s.publishers[0], s.channels[c], c);
  }

  /** The last thing the subscriber has, consumed or waiting, is this version. */
  predicate EndsWith(ch: Channel, version: nat) {
    |ch.Seen()| > 0 && ch.Seen()[|ch.Seen()| - 1] == version
  }

  /** With one publisher, between publications: an open subscription older than the newest snapshot has
      it as its last one exactly when its delivery was not given up. */
  lemma NewestUnlessMissed(cap: nat, s: State, c: nat)
    requires Serial(cap, s) && s.publishers == [Quiet]
    requires c < |s.channels| && s.channels[c].registered && s.channels[c].since < s.version
    ensures s.version !in s.channels[c].missed <==> EndsWith(s.channels[c], s.version)
  {
    var ch := s.channels[c];
    assert Tracks(cap, s.version, s.publishers[0], ch, c);
    if |ch.Seen()| > 0 {
      assert ch.Seen()[|ch.Seen()| - 1] in ch.Seen();
    }
  }

  /** The drain of a delivery of this version finds that the consumer has emptied the full buffer, taking
      cap snapshots, since the send that found it full. */
  ghost predicate EmptiedInWindow(cap: nat, s: State, step: Step, c: nat, version: nat) {
    && step == TryDrain(0) && Enabled(s, step) && Target(s, step) == Some(c) && !s.channels[c].closed
    && s.publishers[0].version == version
    && |s.channels[c].consumed| - s.publishers[0].taken == cap
  }

  /** Exactly then the delivery is given up. So with cap 0 a send to a consumer that is not waiting is lost
      at once, and with cap > 0 the newest snapshot is lost only in that window. */
  lemma GivesUpIff(cap: nat, s: State, step: Step, c: nat, version: nat)
    requires Serial(cap, s) && Enabled(s, step) && c < |Apply(cap, s, step).channels|
    ensures version in Apply(cap, s, step).channels[c].missed <==>
              (c < |s.channels| && version in s.channels[c].missed) || EmptiedInWindow(cap, s, step, c, version)
  {
    if step.TryDrain? {
      SameChannels(cap, s, step);
      assert Tracks(cap, s.version, s.publishers[0], s.channels[c], c);
      if Target(s, step) == Some(c) {
        assert Pending(s.publishers[0], c);
      } else {
        OtherChannels(cap, s, step, c);
      }
    } else if c < |s.channels| {
      OnlyDrainGivesUp(cap, s, step, c);
    }
  }

  lemma OnlyDrainGivesUp(cap: nat, s: State, step: Step, c: nat)
    requires Enabled(s, step) && c < |s.channels| && !step.TryDrain?
    ensures Apply(cap, s, step).channels[c].missed == s.channels[c].missed
  {
  }

  /** Somewhere along the run a delivery of this version to c met an emptied buffer. */
  ghost predicate EmptiedAlong(cap: nat, s: State, steps: seq<Step>, c: nat, version: nat)
    decreases |steps|
  {
    && steps != [] && Enabled(s, steps[0])
    && (|| EmptiedInWindow(cap, s, steps[0], c, version)
        || EmptiedAlong(cap, Apply(cap, s, steps[0]), steps[1..], c, version))
  }

  lemma {:induction false} MissedAlong(cap: nat, s: State, steps: seq<Step>, end: State, c: nat, version: nat)
    requires Serial(cap, s) && Run(cap, s, steps, end) && c < |end.channels|
    ensures version in end.channels[c].missed <==>
              (c < |s.channels| && version in s.channels[c].missed) || EmptiedAlong(cap, s, steps, c, version)
    decreases |steps|
  {
    if steps != [] {
      var next := Apply(cap, s, steps[0]);
      SerialStep(cap, s, steps[0]);
      MissedAlong(cap, next, steps[1..], end, c, version);
      if c < |next.channels| {
        GivesUpIff(cap, s, steps[0], c, version);
      } else {
        ChannelsStay(cap, s, steps[0]);
      }
    }
  }

  lemma ChannelsStay(cap: nat, s: State, step: Step)
    requires Enabled(s, step)
    ensures |Apply(cap, s, step).channels| >= |s.channels|
  {
  }

  /** With one publisher, over any run: between publications an open subscription that is older than the
      newest snapshot ends with it exactly if no delivery of it had the consumer take exactly cap
      snapshots between the two selects. */
  lemma NewestArrivesIff(cap: nat, steps: seq<Step>, s: State, c: nat)
    requires Run(cap, Init(1), steps, s) && s.publishers == [Quiet]
    requires c < |s.channels| && s.channels[c].registered && s.channels[c].since < s.version
    ensures EndsWith(s.channels[c], s.version) <==> !EmptiedAlong(cap, Init(1), steps, c, s.version)
  {
    RunInv(cap, Init(1), steps, s);
    NewestUnlessMissed(cap, s, c);
    MissedAlong(cap, Init(1), steps, s, c, s.version);
  }

  // --- concrete runs ----------------------------------------------------------------------

  lemma {:induction false} RunExtend(cap: nat, s: State, steps: seq<Step>, end: State, step: Step)
    requires Run(cap, s, steps, end) && Enabled(end, step)
    ensures Run(cap, s, steps + [step], Apply(cap, end, step))
    decreases |steps|
  {
    if steps == [] {
      assert Run(cap, Apply(cap, s, step), [], Apply(cap, end, step));
      assert ([] + [step])[1..] == [];
    } else {
      RunExtend(cap, Apply(cap, s, steps[0]), steps[1..], end, step);
      assert (steps + [step])[1..] == steps[1..] + [step];
    }
  }

  lemma Go(cap: nat, publishers: nat, s: State, step: Step) returns (s2: State)
    requires Reachable(cap, publishers, s) && Enabled(s, step)
    ensures s2 == Apply(cap, s, step) && Reachable(cap, publishers, s2)
  {
    s2 := Apply(cap, s, step);
    var steps :| Run(cap, Init(publishers), steps, s);
    RunExtend(cap, Init(publishers), steps, s, step);
  }

  lemma Start(cap: nat, publishers: nat) returns (s: State)
    ensures s == Init(publishers) && Reachable(cap, publishers, s)
  {
    s := Init(publishers);
    assert Run(cap, s, [], s);
  }

  /** One publisher at rest and one open subscription, alone, with these snapshots. */
  ghost predicate Calm(cap: nat, s: State, buffer: seq<nat>, consumed: seq<nat>) {
    && Reachable(cap, 1, s) && !s.panicked && !s.closed && s.publishers == [Quiet]
    && |s.channels| == 1 && s.channels[0] == Channel(true, false, buffer, false, consumed, 1, s.channels[0].missed)
  }

  /** One publication into a buffer with room. */
  lemma PublishIntoBuffer(cap: nat, s: State, buffer: seq<nat>) returns (t: State)
    requires Calm(cap, s, buffer, []) && |buffer| < cap
    ensures Calm(cap, t, buffer + [t.version], []) && t.version == s.version + 1
  {
    t := Go(cap, 1, s, Begin(0, [0]));
    t := Go(cap, 1, t, TrySend(0));
    t := Go(cap, 1, t, Finish(0));
  }

  lemma {:induction false} FillBuffer(cap: nat, n: nat) returns (s: State, buffer: seq<nat>)
    requires n <= cap
    ensures Calm(cap, s, buffer, []) && |buffer| == n
  {
    if n == 0 {
      s := Start(cap, 1);
      s := Go(cap, 1, s, Subscribe);
      buffer := [];
    } else {
      s, buffer := FillBuffer(cap, n - 1);
      var t := PublishIntoBuffer(cap, s, buffer);
      s, buffer := t, buffer + [t.version];
    }
  }

  /** The publisher at its inner select, the buffer not emptied yet. */
  ghost predicate AtInnerSelect(cap: nat, s: State) {
    && Reachable(cap, 1, s) && !s.panicked && s.publishers == [Draining(s.version, [0], 0)]
    && |s.channels| == 1 && s.channels[0].registered && !s.channels[0].closed
    && s.channels[0].since < s.version && s.version !in s.channels[0].Seen()
  }

  lemma {:induction false} ReceiveAll(cap: nat, s: State) returns (t: State)
    requires AtInnerSelect(cap, s)
    ensures AtInnerSelect(cap, t) && t.channels[0].buffer == [] && t.version == s.version
    decreases |s.channels[0].buffer|
  {
    if s.channels[0].buffer == [] {
      return s;
    }
    t := Go(cap, 1, s, Receive(0));
    TakenSeen(s.channels[0]);
    t := ReceiveAll(cap, t);
  }

  /** For every buffer size, one publisher can end quiet with an open subscription that lacks the newest
      snapshot: its consumer empties the full buffer between the two selects of the delivery. */
  lemma LostNewest(cap: nat) returns (s: State)
    ensures Reachable(cap, 1, s) && s.publishers == [Quiet]
    ensures |s.channels| == 1 && s.channels[0].registered && s.channels[0].since < s.version
    ensures s.version !in s.channels[0].Seen()
  {
    var buffer;
    s, buffer := FillBuffer(cap, cap);
    ReachableInv(cap, 1, s);
    assert ChannelOk(cap, s.version, s.channels[0]);
    s := Go(cap, 1, s, Begin(0, [0]));
    s := Go(cap, 1, s, TrySend(0));
    s := ReceiveAll(cap, s);
    s := Go(cap, 1, s, TryDrain(0));
    s := Go(cap, 1, s, Finish(0));
  }

  // --- more than one publisher -----------------------------------------------------------------

  /** Publishers 0 and 1 have taken versions 2 and 3; the newer one is delivered first. */
  lemma NewerIsFaster(cap: nat, publishers: nat) returns (s: State)
    requires publishers >= 2
    ensures Reachable(cap, publishers, s) && !s.panicked && !s.closed && s.version == 3
    ensures |s.publishers| == publishers && |s.channels| == 1
    ensures s.publishers[0] == Sending(2, [0], false) && s.publishers[1] == Sending(3, [], false)
    ensures forall p | 2 <= p < publishers :: s.publishers[p] == Quiet
    ensures s.channels[0] == Channel(true, false, [], false, [3], 1, {})
  {
    s := Start(cap, publishers);
    s := Go(cap, publishers, s, Subscribe);
    s := Go(cap, publishers, s, Begin(0, [0]));
    s := Go(cap, publishers, s, Begin(1, [0]));
    s := Go(cap, publishers, s, Wait(0));
    s := Go(cap, publishers, s, TrySend(1));
  }

  /** For any buffer and any number of publishers from two on, a subscriber can receive an older snapshot
      after the newest, though no delivery was given up. */
  lemma PublishersOvertake(cap: nat, publishers: nat) returns (s: State)
    requires publishers >= 2
    ensures Reachable(cap, publishers, s) && AllQuiet(s) && s.version == 3
    ensures |s.channels| == 1 && s.channels[0] == Channel(true, false, [], false, [3, 2], 1, {})
  {
    s := NewerIsFaster(cap, publishers);
    s := Go(cap, publishers, s, Wait(0));
    s := Go(cap, publishers, s, TrySend(0));
    s := Go(cap, publishers, s, Finish(0));
    s := Go(cap, publishers, s, Finish(1));
  }

  ghost predicate AllAscend(s: State) {
    forall c | 0 <= c < |s.channels| :: Increasing(s.channels[c].Seen())
  }

  /** Every subscriber's snapshots ascend, in every interleaving, exactly if there is one publisher. */
  lemma AscendIff(cap: nat, publishers: nat)
    requires publishers >= 1
    ensures (forall s | Reachable(cap, publishers, s) :: AllAscend(s)) <==> publishers == 1
  {
    if publishers == 1 {
      forall s | Reachable(cap, publishers, s)
        ensures AllAscend(s)
      {
        forall c | 0 <= c < |s.channels|
          ensures Increasing(s.channels[c].Seen())
        {
          VersionsAscend(cap, s, c);
        }
      }
    } else {
      var s := PublishersOvertake(cap, publishers);
      var seen := s.channels[0].Seen();
      assert seen == [3, 2] && seen[0] > seen[1];
      assert !AllAscend(s);
    }
  }

  predicate AllQuiet(s: State) {
    forall p | 0 <= p < |s.publishers| :: s.publishers[p] == Quiet
  }

  /** Between publications every open subscription that is older than the newest snapshot, and to which its
      delivery was not given up, ends with it. */
  ghost predicate KeepsNewest(s: State) {
    AllQuiet(s) ==>
      forall c | 0 <= c < |s.channels| && s.channels[c].registered && s.channels[c].since < s.version
                 && s.version !in s.channels[c].missed ::
        EndsWith(s.channels[c], s.version)
  }

  /** This too holds in every interleaving exactly if there is one publisher. */
  lemma KeepsNewestIff(cap: nat, publishers: nat)
    requires publishers >= 1
    ensures (forall s | Reachable(cap, publishers, s) :: KeepsNewest(s)) <==> publishers == 1
  {
    if publishers == 1 {
      forall s | Reachable(cap, publishers, s)
        ensures KeepsNewest(s)
      {
        ReachableInv(cap, publishers, s);
        if AllQuiet(s) {
          assert s.publishers == [Quiet];
          forall c | 0 <= c < |s.channels| && s.channels[c].registered && s.channels[c].since < s.version
                     && s.version !in s.channels[c].missed
            ensures EndsWith(s.channels[c], s.version)
          {
            NewestUnlessMissed(cap, s, c);
          }
        }
      }
    } else {
      var s := PublishersOvertake(cap, publishers);
      assert s.channels[0].Seen() == [3, 2];
    }
  }

  // --- closing a channel that a publisher still has to serve ---------------------------------

  /** Publisher p has yet to serve channel c, which is closed. */
  predicate Doomed(s: State, p: nat, c: nat) {
    p < |s.publishers| && Pending(s.publishers[p], c) && c < |s.channels| && s.channels[c].closed
  }

  lemma DoomedStays(cap: nat, s: State, step: Step, p: nat, c: nat)
    requires Inv(cap, s) && Enabled(s, step) && Doomed(s, p, c)
    ensures Apply(cap, s, step).panicked || Doomed(Apply(cap, s, step), p, c)
  {
    var g := s.publishers[p];
    if (step.TrySend? || step.TryDrain?) && step.p == p && g.rest[0] != c {
      assert g.rest == [g.rest[0]] + g.rest[1..];
    }
  }

  /** Once that happens, this Publish never returns: it panics or is still at it. */
  lemma {:induction false} DoomedPublishNeverReturns(cap: nat, s: State, steps: seq<Step>, end: State, p: nat, c: nat)
    requires Inv(cap, s) && Run(cap, s, steps, end) && Doomed(s, p, c) && !s.panicked
    ensures end.panicked || Doomed(end, p, c)
    decreases |steps|
  {
    if steps != [] {
      var next := Apply(cap, s, steps[0]);
      DoomedStays(cap, s, steps[0], p, c);
      StepInv(cap, s, steps[0]);
      if !next.panicked {
        DoomedPublishNeverReturns(cap, next, steps[1..], end, p, c);
      }
    }
  }

  ghost predicate NobodyDoomed(s: State) {
    forall p, c | 0 <= p < |s.publishers| && 0 <= c < |s.channels| :: !Doomed(s, p, c)
  }

  /** No channel is closed while a publisher has yet to serve it. */
  ghost predicate ClosesSettled(s: State, step: Step) {
    match step
    case Unsubscribe(c) => forall p | 0 <= p < |s.publishers| :: !Pending(s.publishers[p], c)
    case Close => forall p | 0 <= p < |s.publishers| :: !Busy(s.publishers[p])
    case _ => true
  }

  ghost predicate SettledRun(cap: nat, s: State, steps: seq<Step>, end: State)
    decreases |steps|
  {
    if steps == [] then s == end
    else Enabled(s, steps[0]) && ClosesSettled(s, steps[0]) && SettledRun(cap, Apply(cap, s, steps[0]), steps[1..], end)
  }

  lemma SettledStep(cap: nat, s: State, step: Step)
    requires Inv(cap, s) && Enabled(s, step) && NobodyDoomed(s) && ClosesSettled(s, step)
    ensures !Apply(cap, s, step).panicked && NobodyDoomed(Apply(cap, s, step))
  {
    var s2 := Apply(cap, s, step);
    if step.TrySend? {
      var c := s.publishers[step.p].rest[0];
      assert !Doomed(s, step.p, c);
    }
    forall p, c | 0 <= p < |s2.publishers| && 0 <= c < |s2.channels|
      ensures !Doomed(s2, p, c)
    {
      assert PublisherOk(s, s.publishers[p]);
      if c < |s.channels| {
        assert !Doomed(s, p, c) && ChannelOk(cap, s.version, s.channels[c]);
      }
    }
  }

  /** While no channel is closed under a publisher, no send panics, for any number of publishers. */
  lemma {:induction false} SettledRunsNeverPanic(cap: nat, s: State, steps: seq<Step>, end: State)
    requires Inv(cap, s) && !s.panicked && NobodyDoomed(s) && SettledRun(cap, s, steps, end)
    ensures !end.panicked && NobodyDoomed(end)
    decreases |steps|
  {
    if steps != [] {
      SettledStep(cap, s, steps[0]);
      StepInv(cap, s, steps[0]);
      SettledRunsNeverPanic(cap, Apply(cap, s, steps[0]), steps[1..], end);
    }
  }

  /** The steps of publications under way; nobody publishes anew, subscribes, closes or receives. */
  predicate ByPublisher(step: Step) {
    step.TrySend? || step.TryDrain? || step.Finish?
  }

  ghost predicate OnlyPublishers(steps: seq<Step>) {
    forall i | 0 <= i < |steps| :: ByPublisher(steps[i])
  }

  ghost predicate CanPanic(cap: nat, s: State) {
    exists steps, end :: Run(cap, s, steps, end) && OnlyPublishers(steps) && end.panicked
  }

  /** 0 before a send that will go through or panic, 1 before a drain, 2 before a send that will not. */
  function Phase(cap: nat, s: State, g: Publisher): nat
    requires Busy(g) && g.rest[0] < |s.channels|
  {
    var ch := s.channels[g.rest[0]];
    if g.Draining? then 1 else if ch.closed || Offer(cap, ch, g.version).Some? then 0 else 2
  }

  /** Publisher p on its own, with a closed channel ahead, runs into the panic. */
  lemma {:induction false} RunIntoPanic(cap: nat, s: State, p: nat, c: nat) returns (steps: seq<Step>, end: State)
    requires Inv(cap, s) && !s.panicked && Doomed(s, p, c)
    requires s.publishers[p].rest[0] < |s.channels|
    ensures Run(cap, s, steps, end) && OnlyPublishers(steps) && end.panicked
    decreases |s.publishers[p].rest|, Phase(cap, s, s.publishers[p])
  {
    var g := s.publishers[p];
    var h := g.rest[0];
    assert ChannelOk(cap, s.version, s.channels[h]);
    var step := if g.Draining? then TryDrain(p) else TrySend(p);
    var next := Apply(cap, s, step);
    DoomedStays(cap, s, step, p, c);
    StepInv(cap, s, step);
    if next.panicked {
      assert Run(cap, next, [], next);
      steps, end := [step], next;
    } else {
      HeadExists(cap, next, p);
      var more;
      more, end := RunIntoPanic(cap, next, p, c);
      steps := [step] + more;
      assert steps[1..] == more;
    }
  }

  lemma HeadExists(cap: nat, s: State, p: nat)
    requires Inv(cap, s) && p < |s.publishers| && Busy(s.publishers[p])
    ensures s.publishers[p].rest[0] < |s.channels|
  {
    assert PublisherOk(s, s.publishers[p]);
    assert s.publishers[p].rest[0] in s.publishers[p].rest;
  }

  lemma {:induction false} PublishersSettle(cap: nat, s: State, steps: seq<Step>, end: State)
    requires Run(cap, s, steps, end) && OnlyPublishers(steps)
    ensures SettledRun(cap, s, steps, end)
    decreases |steps|
  {
    if steps != [] {
      assert ByPublisher(steps[0]);
      forall i | 0 <= i < |steps[1..]|
        ensures ByPublisher(steps[1..][i])
      {
        assert ByPublisher(steps[i + 1]);
      }
      PublishersSettle(cap, Apply(cap, s, steps[0]), steps[1..], end);
    }
  }

  /** For any number of publishers: the publications under way can end in a panic exactly if one of them has
      yet to serve a closed channel. */
  lemma PanicIff(cap: nat, s: State)
    requires Inv(cap, s) && !s.panicked
    ensures CanPanic(cap, s) <==> !NobodyDoomed(s)
  {
    if CanPanic(cap, s) {
      var steps, end :| Run(cap, s, steps, end) && OnlyPublishers(steps) && end.panicked;
      PublishersSettle(cap, s, steps, end);
      if NobodyDoomed(s) {
        SettledRunsNeverPanic(cap, s, steps, end);
        assert false;
      }
    }
    if !NobodyDoomed(s) {
      var p, c :| 0 <= p < |s.publishers| && 0 <= c < |s.channels| && Doomed(s, p, c);
      HeadExists(cap, s, p);
      var steps, end := RunIntoPanic(cap, s, p, c);
    }
  }

  /** The order of steps that ends in a send on a closed channel. */
  lemma ClosedUnderPublisherExample()
    ensures exists s :: Reachable(1, 1, s) && s.panicked
  {
    var s := Start(1, 1);
    s := Go(1, 1, s, Subscribe);
    s := Go(1, 1, s, Begin(0, [0]));
    s := Go(1, 1, s, Unsubscribe(0));
    s := Go(1, 1, s, TrySend(0));
  }

  // --- Publish comes to an end -----------------------------------------------------------------

  /** Steps a lone publisher still takes at most. */
  function Rank(g: Publisher): int {
    match g
    case Quiet => 0
    case Sending(_, rest, retried) => 3 * |rest| + (if retried then -1 else 1)
    case Draining(_, rest, _) => 3 * |rest|
  }

  /** A lone publisher is never stuck, every step of its own brings its end nearer unless it panics, and
      no step of the others sets it back: deliver drains at most once per channel. */
  lemma PublishEnds(cap: nat, s: State, step: Step)
    requires Reachable(cap, 1, s) && !s.panicked && |s.publishers| == 1 && !s.publishers[0].Quiet?
    ensures Enabled(s, TrySend(0)) || Enabled(s, TryDrain(0)) || Enabled(s, Finish(0))
    ensures Rank(s.publishers[0]) > 0
    ensures Enabled(s, step) && BySubscriber(step) ==> Apply(cap, s, step).publishers == s.publishers
    ensures Enabled(s, step) && !BySubscriber(step) ==>
              Apply(cap, s, step).panicked || Rank(Apply(cap, s, step).publishers[0]) < Rank(s.publishers[0])
  {
    ReachableInv(cap, 1, s);
    var g := s.publishers[0];
    assert PublisherOk(s, g);
    if g.rest != [] {
      assert g.rest[0] in g.rest;
      assert Tracks(cap, s.version, g, s.channels[g.rest[0]], g.rest[0]);
    }
  }

  // --- any number of publications come to an end --------------------------------------------------

  predicate HeadClosed(rest: seq<nat>, chs: seq<Channel>) {
    rest != [] && rest[0] < |chs| && chs[rest[0]].closed
  }

  function PublisherRank(g: Publisher, chs: seq<Channel>): nat {
    match g
    case Quiet => 0
    case Sending(_, rest, _) => 5 * |rest| + (if HeadClosed(rest, chs) then 1 else 3)
    case Draining(_, rest, _) => 5 * |rest| + 2
  }

  function PublishersRank(gs: seq<Publisher>, chs: seq<Channel>): nat {
    if gs == [] then 0 else PublisherRank(gs[0], chs) + PublishersRank(gs[1..], chs)
  }

  function Buffered(chs: seq<Channel>): nat {
    if chs == [] then 0 else |chs[0].buffer| + Buffered(chs[1..])
  }

  /** What is left to do for the publications under way, however many. */
  function TotalRank(s: State): nat {
    PublishersRank(s.publishers, s.channels) + 2 * Buffered(s.channels)
  }

  lemma {:induction false} PublishersRankUpdate(gs: seq<Publisher>, p: nat, g: Publisher, chs: seq<Channel>)
    requires p < |gs|
    ensures PublishersRank(gs[p := g], chs) + PublisherRank(gs[p], chs)
         == PublishersRank(gs, chs) + PublisherRank(g, chs)
  {
    if p == 0 {
      assert gs[0 := g][1..] == gs[1..];
    } else {
      assert gs[p := g][1..] == gs[1..][p - 1 := g] && gs[p := g][0] == gs[0];
      PublishersRankUpdate(gs[1..], p - 1, g, chs);
    }
  }

  lemma {:induction false} BufferedUpdate(chs: seq<Channel>, c: nat, ch: Channel)
    requires c < |chs|
    ensures Buffered(chs[c := ch]) + |chs[c].buffer| == Buffered(chs) + |ch.buffer|
  {
    if c == 0 {
      assert chs[0 := ch][1..] == chs[1..];
    } else {
      assert chs[c := ch][1..] == chs[1..][c - 1 := ch] && chs[c := ch][0] == chs[0];
      BufferedUpdate(chs[1..], c - 1, ch);
    }
  }

  ghost predicate NoneReopened(chs: seq<Channel>, chs2: seq<Channel>) {
    |chs| <= |chs2| && forall c | 0 <= c < |chs| :: chs[c].closed ==> chs2[c].closed
  }

  lemma {:induction false} PublishersRankFalls(gs: seq<Publisher>, chs: seq<Channel>, chs2: seq<Channel>)
    requires NoneReopened(chs, chs2)
    ensures PublishersRank(gs, chs2) <= PublishersRank(gs, chs)
  {
    if gs != [] {
      PublishersRankFalls(gs[1..], chs, chs2);
    }
  }

  lemma {:induction false} BufferedFalls(chs: seq<Channel>, chs2: seq<Channel>)
    requires |chs| <= |chs2|
    requires forall c | 0 <= c < |chs| :: |chs2[c].buffer| <= |chs[c].buffer|
    requires forall c | |chs| <= c < |chs2| :: chs2[c].buffer == []
    ensures Buffered(chs2) <= Buffered(chs)
    decreases |chs2|
  {
    if chs != [] {
      assert forall c | 0 <= c < |chs[1..]| :: |chs2[1..][c].buffer| <= |chs[1..][c].buffer|;
      BufferedFalls(chs[1..], chs2[1..]);
    } else if chs2 != [] {
      BufferedFalls([], chs2[1..]);
    }
  }

  lemma SubscriberStepRank(cap: nat, s: State, step: Step)
    requires Enabled(s, step) && BySubscriber(step)
    ensures TotalRank(Apply(cap, s, step)) <= TotalRank(s)
  {
    var s2 := Apply(cap, s, step);
    SamePublishers(cap, s, step);
    PublishersRankFalls(s.publishers, s.channels, s2.channels);
    BufferedFalls(s.channels, s2.channels);
  }

  /** What moving publisher p on and changing channel c does to what is left. */
  lemma MoveRank(s: State, p: nat, g: Publisher, c: nat, ch: Channel)
    requires p < |s.publishers| && c < |s.channels| && ch.closed == s.channels[c].closed
    ensures TotalRank(s.(publishers := s.publishers[p := g], channels := s.channels[c := ch]))
            + PublisherRank(s.publishers[p], s.channels) + 2 * |s.channels[c].buffer|
         == TotalRank(s) + PublisherRank(g, s.channels) + 2 * |ch.buffer|
  {
    var gs, chs := s.publishers[p := g], s.channels[c := ch];
    PublishersRankUpdate(s.publishers, p, g, s.channels);
    PublishersRankFalls(gs, s.channels, chs);
    PublishersRankFalls(gs, chs, s.channels);
    BufferedUpdate(s.channels, c, ch);
  }

  lemma SendRank(cap: nat, s: State, p: nat)
    requires Enabled(s, TrySend(p)) && !Apply(cap, s, TrySend(p)).panicked
    ensures TotalRank(Apply(cap, s, TrySend(p))) < TotalRank(s)
  {
    var s2, c := Apply(cap, s, TrySend(p)), s.publishers[p].rest[0];
    MoveRank(s, p, s2.publishers[p], c, s2.channels[c]);
    assert s2 == s.(publishers := s.publishers[p := s2.publishers[p]], channels := s.channels[c := s2.channels[c]]);
  }

  lemma DrainRank(cap: nat, s: State, p: nat)
    requires Enabled(s, TryDrain(p))
    ensures TotalRank(Apply(cap, s, TryDrain(p))) < TotalRank(s)
  {
    var s2, c := Apply(cap, s, TryDrain(p)), s.publishers[p].rest[0];
    MoveRank(s, p, s2.publishers[p], c, s2.channels[c]);
    assert s2 == s.(publishers := s.publishers[p := s2.publishers[p]], channels := s.channels[c := s2.channels[c]]);
  }

  /** With any number of publishers: every step of a publication lowers what is left, unless it panics, and
      no step of a subscriber raises it. */
  lemma PublicationsProgress(cap: nat, s: State, step: Step)
    requires Enabled(s, step) && !step.Begin?
    ensures var s2 := Apply(cap, s, step);
            s2.panicked || TotalRank(s2) + (if ByPublisher(step) then 1 else 0) <= TotalRank(s)
  {
    match step
    case TrySend(p) => if !Apply(cap, s, step).panicked { SendRank(cap, s, p); }
    case TryDrain(p) => DrainRank(cap, s, p);
    case Finish(p) => PublishersRankUpdate(s.publishers, p, Quiet, s.channels);
    case _ => SubscriberStepRank(cap, s, step);
  }

  /** A publication under way is never stuck. */
  lemma PublisherCanMove(cap: nat, s: State, p: nat)
    requires Inv(cap, s) && !s.panicked && p < |s.publishers| && !s.publishers[p].Quiet?
    ensures Enabled(s, TrySend(p)) || Enabled(s, TryDrain(p)) || Enabled(s, Finish(p))
  {
    assert PublisherOk(s, s.publishers[p]);
    if s.publishers[p].rest != [] {
      HeadExists(cap, s, p);
    }
  }

  function PublisherSteps(steps: seq<Step>): nat {
    if steps == [] then 0 else (if ByPublisher(steps[0]) then 1 else 0) + PublisherSteps(steps[1..])
  }

  /** So the publications under way in a state end within that many steps of theirs, whatever subscribers do
      in between: deliver's loop terminates for any number of concurrent publishers. */
  lemma {:induction false} PublicationsEnd(cap: nat, s: State, steps: seq<Step>, end: State)
    requires Run(cap, s, steps, end) && forall i | 0 <= i < |steps| :: !steps[i].Begin?
    ensures !end.panicked ==> PublisherSteps(steps) + TotalRank(end) <= TotalRank(s)
    ensures PublisherSteps(steps) <= TotalRank(s) + 1
    decreases |steps|
  {
    if steps != [] {
      var next := Apply(cap, s, steps[0]);
      PublicationsProgress(cap, s, steps[0]);
      if !next.panicked {
        PublicationsEnd(cap, next, steps[1..], end);
      }
    }
  }
}
