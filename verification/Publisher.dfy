/**
 Membership snapshots (internal/cluster/cluster.go:354-422, 572-578): signalChanged,
 watch, Members and Leave as the steps of threads that share a one-slot signal, a mutex
 and the subscribers' one-slot channels.
*/
module Publisher {
  import opened Basics

  /**
   A Members channel: the snapshot in its slot, the last one ever put there, and how often
   it was closed. A snapshot is known by the version of the membership it shows.
  */
  datatype Channel = Channel(slot: Option<nat>, fed: Option<nat>, closes: nat)

  datatype Watch = Waiting | Received | Taken(v: nat) | Draining(v: nat, i: nat) | Sending(v: nat, i: nat) | Stopped

  datatype Leave = NotYet | DoneClosed | Closing(i: nat) | Finished

  datatype Holder = Nobody | WatchHolds | LeaveHolds

  /**
   version counts the changes made, owed those whose signal is yet to come, signalled the
   changes made by the last signal; pending is the slot of the changed channel. The first
   subs channels are subscribed. broken: a send or close on a closed channel has happened.
  */
  datatype State = State(
    version: nat, owed: nat, signalled: nat, pending: bool,
    watch: Watch, leave: Leave, done: bool, left: bool, lock: Holder,
    channels: seq<Channel>, subs: nat, broken: bool)

  const START := State(0, 0, 0, false, Waiting, NotYet, false, false, Nobody, [], 0, false)

  datatype Step =
    | Change | Signal | Members | Read(ch: nat)
    | Receive | Stop | Snapshot | LockSubs | Drain | Send
    | CloseDone | LockForClose | CloseNext

  function Close(c: Channel): Channel {
    c.(closes := c.closes + 1)
  }

  /** signalChanged: a signal already pending is enough. */
  function Signalled(st: State): State {
    st.(pending := true, signalled := st.version)
  }

  /** A step that cannot happen changes nothing; that includes a send to an occupied slot, which would block. */
  function Next(st: State, step: Step): State {
    match step
    case Change => st.(version := st.version + 1, owed := st.owed + 1)
    case Signal => if st.owed == 0 then st else Signalled(st).(owed := st.owed - 1)
    case Members =>
      if st.lock != Nobody then st
      else if st.left then st.(channels := st.channels + [Channel(None, None, 1)])
      else Signalled(st).(channels := st.channels + [Channel(None, None, 0)], subs := st.subs + 1)
    case Read(ch) =>
      if ch < |st.channels| then st.(channels := st.channels[ch := st.channels[ch].(slot := None)]) else st
    case Receive => if st.watch == Waiting && st.pending then st.(watch := Received, pending := false) else st
    case Stop => if st.watch == Waiting && st.done then st.(watch := Stopped) else st
    case Snapshot => if st.watch == Received then st.(watch := Taken(st.version)) else st
    case LockSubs =>
      if st.watch.Taken? && st.lock == Nobody
      then st.(lock := WatchHolds, watch := Draining(st.watch.v, 0)) else st
    case Drain =>
      if !st.watch.Draining? then st
      else if st.watch.i >= st.subs then st.(watch := Waiting, lock := Nobody)
      else if st.watch.i >= |st.channels| then st
      else st.(watch := Sending(st.watch.v, st.watch.i),
               channels := st.channels[st.watch.i := st.channels[st.watch.i].(slot := None)])
    case Send =>
      if !CanSend(st) then st
      else
        var v, i := st.watch.v, st.watch.i;
        st.(watch := Draining(v, i + 1), broken := st.broken || st.channels[i].closes > 0,
            channels := st.channels[i := st.channels[i].(slot := Some(v), fed := Some(v))])
    case CloseDone => if st.leave == NotYet then st.(leave := DoneClosed, done := true) else st
    case LockForClose =>
      if st.leave == DoneClosed && st.watch == Stopped && st.lock == Nobody
      then st.(leave := Closing(0), lock := LeaveHolds) else st
    case CloseNext =>
      if !st.leave.Closing? then st
      else if st.leave.i >= st.subs then st.(leave := Finished, left := true, subs := 0, lock := Nobody)
      else if st.leave.i >= |st.channels| then st
      else
        var i := st.leave.i;
        st.(leave := Closing(i + 1), broken := st.broken || st.channels[i].closes > 0,
            channels := st.channels[i := Close(st.channels[i])])
  }

  /** The slot of the channel watch is about to send to is free, so the send goes through at once. */
  predicate CanSend(st: State) {
    st.watch.Sending? && st.watch.i < |st.channels| && st.channels[st.watch.i].slot.None?
  }

  function Run(steps: seq<Step>): State {
    if steps == [] then START else Next(Run(steps[..|steps| - 1]), steps[|steps| - 1])
  }

  predicate LocksOk(st: State) {
    && (st.lock == WatchHolds <==> st.watch.Draining? || st.watch.Sending?)
    && (st.lock == LeaveHolds <==> st.leave.Closing?)
    && (st.leave.Closing? || st.leave.Finished? ==> st.watch == Stopped)
    && (st.left <==> st.leave.Finished?)
    && (st.done <==> !st.leave.NotYet?)
    && (st.watch == Stopped ==> st.done)
  }

  function ClosesDue(st: State, c: nat): nat {
    if st.left || (st.leave.Closing? && c < st.leave.i) then 1 else 0
  }

  predicate Busy(w: Watch) {
    w.Taken? || w.Draining? || w.Sending?
  }

  /** Until Leave is done every channel is subscribed; from its closing on they are closed one by one, once each. */
  ghost predicate ChannelsOk(st: State) {
    && st.subs == (if st.left then 0 else |st.channels|)
    && (st.leave.Closing? ==> st.leave.i <= |st.channels|)
    && (forall c :: 0 <= c < |st.channels| ==> st.channels[c].closes == ClosesDue(st, c))
    && (st.watch.Draining? ==> st.watch.i <= st.subs)
    && (st.watch.Sending? ==> st.watch.i < st.subs && st.channels[st.watch.i].slot.None?)
    && !st.broken
  }

  /** Every signal is behind a snapshot taken since, or still pending, or received with the snapshot to come. */
  ghost predicate CoverageOk(st: State) {
    && st.signalled <= st.version
    && (st.owed == 0 ==> st.signalled == st.version)
    && match st.watch
       case Waiting => st.pending || forall c :: 0 <= c < st.subs && c < |st.channels| ==>
                         st.channels[c].fed.Some? && st.channels[c].fed.value >= st.signalled
       case Received => true
       case Taken(v) => st.pending || v >= st.signalled
       case Draining(v, i) => (st.pending || v >= st.signalled) &&
                         forall c :: 0 <= c < i && c < |st.channels| ==> st.channels[c].fed == Some(v)
       case Sending(v, i) => (st.pending || v >= st.signalled) &&
                         forall c :: 0 <= c < i && c < |st.channels| ==> st.channels[c].fed == Some(v)
       case Stopped => true
  }

  /** No snapshot is older than one already taken, and a slot holds the last one it was given. */
  ghost predicate NewestOk(st: State) {
    && (forall c :: 0 <= c < |st.channels| ==> st.channels[c].slot.Some? ==> st.channels[c].slot == st.channels[c].fed)
    && (forall c :: 0 <= c < |st.channels| && st.channels[c].fed.Some? ==> st.channels[c].fed.value <= st.version)
    && (forall c :: 0 <= c < |st.channels| && st.channels[c].fed.Some? && Busy(st.watch) ==>
      st.channels[c].fed.value <= st.watch.v)
    && (Busy(st.watch) ==> st.watch.v <= st.version)
  }

  ghost predicate Inv(st: State) {
    LocksOk(st) && ChannelsOk(st) && CoverageOk(st) && NewestOk(st)
  }

  lemma StepKeepsLocks(st: State, step: Step)
    requires Inv(st)
    ensures LocksOk(Next(st, step))
  {
  }

  lemma StepKeepsChannels(st: State, step: Step)
    requires Inv(st)
    ensures ChannelsOk(Next(st, step))
  {
    match step
    case Send => SendKeepsChannels(st);
    case CloseNext => CloseKeepsChannels(st);
    case _ =>
  }

  lemma SendKeepsChannels(st: State)
    requires Inv(st)
    ensures ChannelsOk(Next(st, Send))
  {
  }

  lemma CloseKeepsChannels(st: State)
    requires Inv(st)
    ensures ChannelsOk(Next(st, CloseNext))
  {
  }

  lemma StepKeepsCoverage(st: State, step: Step)
    requires Inv(st)
    ensures CoverageOk(Next(st, step))
  {
  }

  lemma StepKeepsNewest(st: State, step: Step)
    requires Inv(st)
    ensures NewestOk(Next(st, step))
  {
    match step
    case Drain => DrainKeepsNewest(st);
    case Send => SendKeepsNewest(st);
    case CloseNext => CloseKeepsNewest(st);
    case _ =>
  }

  lemma DrainKeepsNewest(st: State)
    requires Inv(st)
    ensures NewestOk(Next(st, Drain))
  {
  }

  lemma SendKeepsNewest(st: State)
    requires Inv(st)
    ensures NewestOk(Next(st, Send))
  {
  }

  lemma CloseKeepsNewest(st: State)
    requires Inv(st)
    ensures NewestOk(Next(st, CloseNext))
  {
  }

  lemma {:induction false} RunsKeepInv(steps: seq<Step>)
    ensures Inv(Run(steps))
  {
    if steps != [] {
      var st, step := Run(steps[..|steps| - 1]), steps[|steps| - 1];
      RunsKeepInv(steps[..|steps| - 1]);
      StepKeepsLocks(st, step);
      StepKeepsChannels(st, step);
      StepKeepsCoverage(st, step);
      StepKeepsNewest(st, step);
    }
  }

  /**
   In every interleaving watch's send finds its slot free, nothing is sent on a closed
   channel and none is closed twice.
  */
  lemma NothingBlocksOrBreaks(steps: seq<Step>)
    ensures !Run(steps).broken
    ensures Run(steps).watch.Sending? ==> CanSend(Run(steps))
    ensures forall c :: 0 <= c < |Run(steps).channels| ==> Run(steps).channels[c].closes <= 1
  {
    RunsKeepInv(steps);
  }

  /**
   No change is missed: when watch has nothing to do and no signal is pending, the last
   snapshot each subscriber was given shows every change signalled so far, and the current
   membership if no signal is outstanding.
  */
  lemma QuietMeansUpToDate(steps: seq<Step>, c: nat)
    requires Run(steps).watch == Waiting && !Run(steps).pending && c < Run(steps).subs
    ensures var st := Run(steps);
      && c < |st.channels| && st.channels[c].fed.Some? && st.signalled <= st.channels[c].fed.value <= st.version
      && (st.owed == 0 ==> st.channels[c].fed == Some(st.version))
  {
    RunsKeepInv(steps);
    QuietIsUpToDate(Run(steps), c);
  }

  lemma QuietIsUpToDate(st: State, c: nat)
    requires Inv(st) && st.watch == Waiting && !st.pending && c < st.subs
    ensures c < |st.channels| && st.channels[c].fed.Some? && st.signalled <= st.channels[c].fed.value <= st.version
    ensures st.owed == 0 ==> st.channels[c].fed == Some(st.version)
  {
  }

  /** A subscriber that reads gets the newest snapshot it was sent; none in the slot is older than one given before. */
  lemma SlotsHoldTheNewest(steps: seq<Step>, c: nat)
    requires c < |Run(steps).channels| && Run(steps).channels[c].slot.Some?
    ensures Run(steps).channels[c].slot == Run(steps).channels[c].fed
    ensures Run(steps).channels[c].slot.value <= Run(steps).version
  {
    RunsKeepInv(steps);
  }

  /** A channel is never given an older snapshot after a newer one. */
  lemma SnapshotsOnlyAdvance(steps: seq<Step>, step: Step, c: nat)
    requires c < |Run(steps).channels| && Run(steps).channels[c].fed.Some?
    ensures var next := Next(Run(steps), step);
      c < |next.channels| && next.channels[c].fed.Some?
        && Run(steps).channels[c].fed.value <= next.channels[c].fed.value
  {
    RunsKeepInv(steps);
  }

  /** Once Leave is done every channel Members ever returned, before or after, has been closed exactly once. */
  lemma LeaveClosesEveryChannelOnce(steps: seq<Step>, c: nat)
    requires Run(steps).leave.Finished? && c < |Run(steps).channels|
    ensures Run(steps).channels[c].closes == 1
  {
    RunsKeepInv(steps);
  }

  // --- and every signal is served ---

  lemma RunGrows(steps: seq<Step>, step: Step)
    ensures Run(steps + [step]) == Next(Run(steps), step)
  {
    assert (steps + [step])[..|steps|] == steps;
  }

  /** The subscribers before the i-th have the snapshot in their slots. */
  ghost predicate Delivered(st: State, v: nat, i: nat) {
    i <= |st.channels| && forall c :: 0 <= c < i ==> st.channels[c].slot == Some(v)
  }

  lemma FeedOne(steps: seq<Step>, v: nat, i: nat) returns (more: seq<Step>)
    requires Run(steps).watch == Draining(v, i) && i < Run(steps).subs && Delivered(Run(steps), v, i)
    ensures var before, after := Run(steps), Run(more);
      after.watch == Draining(v, i + 1) && after.subs == before.subs && after.pending == before.pending
      && Delivered(after, v, i + 1)
  {
    RunsKeepInv(steps);
    RunGrows(steps, Drain);
    RunsKeepInv(steps + [Drain]);
    RunGrows(steps + [Drain], Send);
    more := steps + [Drain] + [Send];
  }

  lemma {:induction false} FeedRest(steps: seq<Step>, v: nat, i: nat) returns (more: seq<Step>)
    requires Run(steps).watch == Draining(v, i) && i <= Run(steps).subs && Delivered(Run(steps), v, i)
    ensures var before, after := Run(steps), Run(more);
      after.watch == Waiting && after.lock == Nobody && after.subs == before.subs && after.pending == before.pending
      && Delivered(after, v, after.subs)
    decreases Run(steps).subs - i
  {
    if i < Run(steps).subs {
      more := FeedOne(steps, v, i);
      more := FeedRest(more, v, i + 1);
    } else {
      RunGrows(steps, Drain);
      more := steps + [Drain];
    }
  }

  /**
   A pending signal is served by watch's own steps, whatever the subscribers have left
   unread: it ends up waiting again, with the current membership in every slot.
  */
  lemma SignalIsServed(steps: seq<Step>) returns (more: seq<Step>)
    requires Run(steps).watch == Waiting && Run(steps).pending
    ensures var before, after := Run(steps), Run(more);
      after.watch == Waiting && !after.pending && after.subs == before.subs
      && Delivered(after, before.version, after.subs)
  {
    RunsKeepInv(steps);
    var v := Run(steps).version;
    var s1 := steps + [Receive];
    var s2 := s1 + [Snapshot];
    var s3 := s2 + [LockSubs];
    RunGrows(steps, Receive);
    RunGrows(s1, Snapshot);
    RunGrows(s2, LockSubs);
    assert Run(s3).watch == Draining(v, 0);
    more := FeedRest(s3, v, 0);
  }

  /** Once watch has stopped, Leave's own steps finish it, and leave every channel closed. */
  lemma {:induction false} LeaveFinishes(steps: seq<Step>) returns (more: seq<Step>)
    requires Run(steps).leave.Closing?
    ensures Run(more).leave.Finished? && forall c :: 0 <= c < |Run(more).channels| ==> Run(more).channels[c].closes == 1
    decreases Run(steps).subs - Run(steps).leave.i
  {
    RunsKeepInv(steps);
    RunGrows(steps, CloseNext);
    more := steps + [CloseNext];
    if Run(steps).leave.i < Run(steps).subs {
      more := LeaveFinishes(more);
    } else {
      RunsKeepInv(more);
    }
  }
}
