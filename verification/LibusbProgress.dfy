/** What comes about in the libusb back end: hid_open_path returns, transfers are submitted again
    and their reports queued, a reader is given what is queued, and it does not wait for ever once
    the device is stopped. */
module LibusbProgress {
  import opened Bytes
  import opened ReportQueue
  import opened LibusbProtocol

  /** Steps of the reader and of the read thread only, where the library hands over no transfer:
      no spurious wake-up and no timeout helps. */
  predicate Plain(a: Action) {
    a == ReaderStep || a == EventStep || a == HandleReturns(false)
  }

  predicate AllPlain(actions: seq<Action>) {
    forall i :: 0 <= i < |actions| ==> Plain(actions[i])
  }

  lemma PlainFirst(a: Action, rest: seq<Action>)
    requires Plain(a) && AllPlain(rest)
    ensures AllPlain([a] + rest)
  {
  }

  lemma FollowFirst(s: State, a: Action, rest: seq<Action>)
    ensures Follow(s, [a] + rest)
         == match Next(s, a) case None => None case Some(t) => Follow(t, rest)
  {
    assert ([a] + rest)[1..] == rest;
  }

  /** From its first look on the reader holds the mutex, and its own steps decide: a queued report
      is returned at once, */
  lemma TakesFirst(s: State)
    requires Reachable(s) && s.reader.FirstLook? && s.q.reports != []
    ensures var r := Follow(s, [ReaderStep]);
      r.Some? && r.value.reader == Unlocking(Data(s.q.reports[0])) && r.value.q.reports == s.q.reports[1..]
  {
    hide EventNext, CloserNext;
    ReachableInv(s);
    FollowFirst(s, ReaderStep, []);
  }

  /** a stopped device fails the read, and a non-blocking read returns nothing; */
  lemma AnswersEmpty(s: State)
    requires Reachable(s) && s.reader.FirstLook? && s.q.reports == [] && (s.shutdown || s.mode == NonBlocking)
    ensures var r := Follow(s, [ReaderStep, ReaderStep]);
      && r.Some? && r.value.q == s.q
      && r.value.reader == Unlocking(if s.shutdown then Failed else NothingRead)
  {
    hide EventNext, CloserNext;
    ReachableInv(s);
    FollowFirst(s, ReaderStep, [ReaderStep]);
    FollowFirst(s.(reader := ShutdownLook), ReaderStep, []);
  }

  /** and any other read goes to sleep and gives the mutex back. */
  lemma GoesToSleep(s: State)
    requires Reachable(s) && s.reader.FirstLook? && s.q.reports == [] && !s.shutdown && s.mode != NonBlocking
    ensures Follow(s, [ReaderStep, ReaderStep, ReaderStep, ReaderStep])
         == Some(s.(reader := Parked(false), mutex := Nobody))
  {
    hide EventNext, CloserNext;
    ReachableInv(s);
    FollowFirst(s, ReaderStep, [ReaderStep, ReaderStep, ReaderStep]);
    FollowFirst(s.(reader := ShutdownLook), ReaderStep, [ReaderStep, ReaderStep]);
    FollowFirst(s.(reader := LoopTest), ReaderStep, [ReaderStep]);
    FollowFirst(s.(reader := GoingToSleep), ReaderStep, []);
  }

  /** How a wait ends, where the mutex is free: a timeout makes a timed read return nothing,
      whatever is queued by then; a wake-up, spurious or not, leads back to the test of the list. */
  lemma WaitEnds(s: State)
    requires Reachable(s) && s.reader.Parked? && s.mutex == Nobody
    ensures s.mode == Timed ==>
      Follow(s, [WaitTimesOut, ReaderStep]) == Some(s.(reader := Unlocking(NothingRead), mutex := Reader))
    ensures Follow(s, [SpuriousWake, ReaderStep]) == Some(s.(reader := LoopTest, mutex := Reader))
    ensures s.reader.woken ==>
      Follow(s, [ReaderStep, ReaderStep]) == Some(s.(reader := LoopTest, mutex := Reader))
  {
    hide EventNext, CloserNext, Inv;
    FollowFirst(s, WaitTimesOut, [ReaderStep]);
    FollowFirst(s.(reader := Relocking(true)), ReaderStep, []);
    FollowFirst(s, SpuriousWake, [ReaderStep]);
    FollowFirst(s, ReaderStep, [ReaderStep]);
    FollowFirst(s.(reader := Relocking(false)), ReaderStep, []);
  }

  /** What may happen at any time: an open device that is not being closed can be read in each
      mode, and closed, while nobody is inside; with a reader inside neither can begin.  A transfer
      in flight can end with any status while events are handled, as cancelled if asked to. */
  lemma MayBegin(s: State, mode: Mode, status: Status)
    requires Reachable(s) && s.opener == Opened && s.closer.NotClosing?
    ensures s.reader == Outside ==>
      Next(s, ReadStart(mode)) == Some(s.(reader := Locking, mode := mode, devLock := Reader))
    ensures s.reader == Outside ==> Next(s, CloseStart) == Some(s.(closer := SetShutdown, devLock := Closer))
    ensures s.reader != Outside ==> Next(s, ReadStart(mode)) == None && Next(s, CloseStart) == None
    ensures s.events.Handling? && s.inFlight ==>
      (Next(s, TransferEnds(status)).Some? <==> !status.Cancelled? || s.asked)
  {
    hide ReaderNext, EventNext, CloserNext;
    ReachableInv(s);
  }

  function ReaderRank(pc: ReaderPc): nat {
    match pc
    case Locking => 10
    case FirstLook => 9
    case ShutdownLook => 8
    case GoingToSleep => 7
    case Parked(woken) => if woken then 5 else 6
    case Relocking(_) => 4
    case LoopTest => 3
    case AfterLoop => 2
    case _ => 0
  }

  /** Inside hid_read, with something to be had, and not about to give up. */
  predicate Entitled(s: State) {
    && s.reader != Outside && s.reader != Relocking(true) && s.reader != Unlocking(NothingRead)
    && (s.q.reports != [] || s.shutdown || s.reader.Unlocking?)
  }

  /** The next step towards the reader's answer. */
  function Helps(s: State): Action {
    if s.reader == Parked(false) || (s.mutex == Events && (s.reader.Locking? || s.reader.Relocking?)) then
      if s.events.Handling? then HandleReturns(false) else EventStep
    else ReaderStep
  }

  /** What it achieves. */
  predicate Helped(s: State, t: State) {
    && Entitled(t)
    && (s.q.reports != [] && !t.reader.Unlocking? ==> t.q.reports != [])
    && (s.q.reports != [] && t.reader.Unlocking? ==> t.reader.result.Data?)
    && (|| ReaderRank(t.reader) < ReaderRank(s.reader)
        || (t.reader == s.reader && !s.cancelled && t.cancelled)
        || (t.reader == s.reader && s.cancelled == t.cancelled
            && EventRank(t.events, t.cancelled) < EventRank(s.events, s.cancelled)))
  }

  /** The reader goes on by itself, */
  lemma ReaderHelps(s: State)
    requires Inv(s) && Entitled(s) && !s.reader.Unlocking? && s.reader != Parked(false)
    requires s.mutex != Events || !(s.reader.Locking? || s.reader.Relocking?)
    ensures Next(s, ReaderStep).Some? && Helped(s, Next(s, ReaderStep).value)
  {
    hide Traffic.Conserved, Enqueue, EventNext, CloserNext, EventRank;
    if s.reader.FirstLook? || s.reader.AfterLoop? {
    } else if s.reader.Locking? || s.reader.Relocking? {
    } else {
    }
  }

  /** or the read thread gives the mutex back, */
  lemma HolderHelps(s: State)
    requires Inv(s) && Entitled(s) && s.mutex == Events && (s.reader.Locking? || s.reader.Relocking?)
    ensures Next(s, Helps(s)).Some? && Helped(s, Next(s, Helps(s)).value)
  {
    hide Traffic.Conserved, Enqueue, Traffic.Arrive, ReaderNext, CloserNext;
    match s.events
    case CbAppend(_, r) => ArriveKeepsSome(s.q, r);
    case CbUnlock(_) =>
    case Broadcast =>
    case BroadcastUnlock =>
  }

  /** or it makes its broadcast. */
  lemma BroadcastHelps(s: State)
    requires Inv(s) && Entitled(s) && s.reader == Parked(false)
    ensures Next(s, Helps(s)).Some? && Helped(s, Next(s, Helps(s)).value)
  {
    hide Traffic.Conserved, Enqueue, Traffic.Arrive, ReaderNext, CloserNext;
    assert s.shutdown && s.closer.NotClosing?;
    if s.events.CbSetCancelled? {
    } else if s.events.AfterDrain() {
    } else {
      assert s.cancelled;
    }
  }

  lemma AnswerComes(s: State) returns (actions: seq<Action>)
    requires Inv(s) && Entitled(s)
    ensures AllPlain(actions)
    ensures var t := Follow(s, actions);
      && t.Some? && t.value.reader.Unlocking? && !t.value.reader.result.NothingRead?
      && (s.q.reports != [] && !s.reader.Unlocking? ==> t.value.reader.result.Data?)
      && (s.reader.Unlocking? ==> t.value == s)
    decreases ReaderRank(s.reader), if s.cancelled then 0 else 1, EventRank(s.events, s.cancelled)
  {
    hide Inv, ReaderNext, EventNext, CloserNext, ReaderRank, EventRank, Next;
    if s.reader.Unlocking? {
      return [];
    }
    if s.reader == Parked(false) {
      BroadcastHelps(s);
    } else if s.mutex == Events && (s.reader.Locking? || s.reader.Relocking?) {
      HolderHelps(s);
    } else {
      ReaderHelps(s);
    }
    Keeps(s, Helps(s));
    var rest := AnswerComes(Next(s, Helps(s)).value);
    actions := [Helps(s)] + rest;
    FollowFirst(s, Helps(s), rest);
    PlainFirst(Helps(s), rest);
  }

  /** A read that finds something queued at any time before it gives up can still return it,
      without any spurious wake-up. */
  lemma QueuedIsRead(s: State)
    requires Reachable(s) && s.reader != Outside && !s.reader.Unlocking? && s.reader != Relocking(true)
    requires s.q.reports != []
    ensures exists actions ::
      && AllPlain(actions) && Follow(s, actions).Some?
      && Follow(s, actions).value.reader.Unlocking? && Follow(s, actions).value.reader.result.Data?
  {
    hide Follow, AllPlain;
    ReachableInv(s);
    var actions := AnswerComes(s);
  }

  /** Once the device is stopped no read waits for ever: it can return a report or a failure. */
  lemma StoppedReadEnds(s: State)
    requires Reachable(s) && s.reader != Outside && !s.reader.Unlocking? && s.reader != Relocking(true)
    requires s.shutdown
    ensures exists actions ::
      && AllPlain(actions) && Follow(s, actions).Some?
      && Follow(s, actions).value.reader.Unlocking? && !Follow(s, actions).value.reader.result.NothingRead?
  {
    hide Follow, AllPlain;
    ReachableInv(s);
    var actions := AnswerComes(s);
  }

  lemma {:induction false} FollowBoth(s: State, first: seq<Action>, rest: seq<Action>)
    ensures Follow(s, first + rest)
         == match Follow(s, first) case None => None case Some(t) => Follow(t, rest)
    decreases |first|
  {
    hide Next;
    if first == [] {
      assert first + rest == rest;
    } else {
      assert (first + rest)[1..] == first[1..] + rest;
      if Next(s, first[0]).Some? {
        FollowBoth(Next(s, first[0]).value, first[1..], rest);
      }
    }
  }

  function HolderRank(pc: ReaderPc): nat {
    match pc
    case FirstLook => 6
    case ShutdownLook => 5
    case LoopTest => 4
    case GoingToSleep => 3
    case AfterLoop => 3
    case Unlocking(_) => 2
    case _ => 0
  }

  /** A reader that holds the mutex gives it back, or comes closer to that, and leaves the read
      thread's part alone. */
  lemma HolderMoves(s: State)
    requires Inv(s) && s.mutex == Reader
    ensures ReaderNext(s).Some?
    ensures var t := ReaderNext(s).value;
      && t.events == s.events && t.shutdown == s.shutdown && t.q.received == s.q.received
      && (t.mutex == Nobody || (t.mutex == Reader && HolderRank(t.reader) < HolderRank(s.reader)))
  {
    hide Traffic.Conserved, Enqueue, Waiting;
    if s.reader.FirstLook? || s.reader.AfterLoop? {
    } else if s.reader.ShutdownLook? || s.reader.LoopTest? {
    } else {
    }
  }

  lemma MutexFreed(s: State) returns (actions: seq<Action>)
    requires Inv(s) && (s.mutex == Reader || s.mutex == Nobody)
    ensures forall i :: 0 <= i < |actions| ==> actions[i] == ReaderStep
    ensures Follow(s, actions).Some?
    ensures var t := Follow(s, actions).value;
      && Inv(t) && t.mutex == Nobody
      && t.events == s.events && t.shutdown == s.shutdown && t.q.received == s.q.received
    decreases if s.mutex == Reader then 1 + HolderRank(s.reader) else 0
  {
    hide Inv, ReaderNext, HolderRank;
    if s.mutex == Nobody {
      return [];
    }
    HolderMoves(s);
    Keeps(s, ReaderStep);
    var rest := MutexFreed(ReaderNext(s).value);
    actions := [ReaderStep] + rest;
    FollowFirst(s, ReaderStep, rest);
  }

  /** A callback that has its report queues it, and submits the transfer again. */
  lemma CallbackCompletes(s: State)
    requires Inv(s) && s.events.CbLock? && s.mutex == Nobody
    ensures var r := Follow(s, [EventStep, EventStep, EventStep, Resubmission(true)]);
      && r.Some? && r.value.q.received == s.q.received + [s.events.r] && r.value.q.reports != []
      && r.value.events == Handling(s.events.drain) && r.value.inFlight && r.value.shutdown == s.shutdown
  {
    hide Traffic.Conserved, Enqueue, ReaderNext, CloserNext, Waiting, Locks, Phases, Transfer;
    var r, drain := s.events.r, s.events.drain;
    ArriveKeepsSome(s.q, r);
    var t := s.(mutex := Events, events := CbAppend(drain, r));
    var u := Arrive(t, r).(events := CbUnlock(drain));
    var v := u.(mutex := Nobody, events := CbResubmit(drain));
    FollowFirst(s, EventStep, [EventStep, EventStep, Resubmission(true)]);
    FollowFirst(t, EventStep, [EventStep, Resubmission(true)]);
    FollowFirst(u, EventStep, [Resubmission(true)]);
    FollowFirst(v, Resubmission(true), []);
  }

  /** What is left to do after a transfer has ended with this status. */
  ghost predicate GoesOn(s: State, status: Status, t: State)
    requires s.events.Handling?
  {
    && t.events == Handling(s.events.drain)
    && (if status.Cancelled? || status.NoDevice? then t.cancelled && t.shutdown && !t.inFlight && t.q == s.q
        else t.inFlight && t.shutdown == s.shutdown
             && t.q.received == s.q.received + if status.Completed? then [status.r] else [])
  }

  /** A transfer that ends is submitted again, after its report is queued if it has one; unless it
      was cancelled or the device is gone, which stops the device. */
  lemma TransferGoesOn(s: State, status: Status) returns (actions: seq<Action>)
    requires Reachable(s) && Next(s, TransferEnds(status)).Some?
    ensures forall i :: 0 <= i < |actions| ==>
      actions[i] == ReaderStep || actions[i] == EventStep || actions[i] == Resubmission(true)
    ensures var t := Follow(Next(s, TransferEnds(status)).value, actions);
      t.Some? && GoesOn(s, status, t.value)
  {
    ReachableInv(s);
    Keeps(s, TransferEnds(status));
    var t := Next(s, TransferEnds(status)).value;
    match status
    case Completed(r) =>
      hide Next, Follow, Transfer, Waiting, Traffic.Conserved;
      var first := MutexFreed(t);
      var freed := Follow(t, first).value;
      CallbackCompletes(freed);
      actions := first + [EventStep, EventStep, EventStep, Resubmission(true)];
      FollowBoth(t, first, [EventStep, EventStep, EventStep, Resubmission(true)]);
    case Cancelled =>
      StopsDevice(t);
      actions := [EventStep, EventStep];
    case NoDevice =>
      StopsDevice(t);
      actions := [EventStep, EventStep];
    case TimedOut =>
      FollowFirst(t, Resubmission(true), []);
      actions := [Resubmission(true)];
    case OtherStatus =>
      FollowFirst(t, Resubmission(true), []);
      actions := [Resubmission(true)];
  }

  lemma StopsDevice(s: State)
    requires s.events.CbSetShutdown?
    ensures Follow(s, [EventStep, EventStep])
         == Some(s.(shutdown := true, cancelled := true, events := Handling(s.events.drain)))
  {
    FollowFirst(s, EventStep, [EventStep]);
    FollowFirst(s.(shutdown := true, events := CbSetCancelled(s.events.drain)), EventStep, []);
  }

  /** The read thread has left its first loop for good. */
  predicate LeftFirstLoop(pc: EventPc) {
    || pc.Cancelling? || pc.Draining? || pc.AfterDrain()
    || (pc.Handling? && pc.drain) || (pc.InCallback() && pc.drain)
  }

  lemma StaysLeft(s: State, a: Action)
    requires Inv(s) && LeftFirstLoop(s.events) && Next(s, a).Some?
    ensures LeftFirstLoop(Next(s, a).value.events)
  {
    hide Traffic.Conserved, Enqueue, Traffic.Arrive, Waiting, CloserNext;
    match a
    case ReaderStep => ReaderLeavesEvents(s);
    case EventStep =>
    case CloserStep => CloserLeavesEvents(s);
    case _ =>
  }

  lemma ReaderLeavesEvents(s: State)
    requires Inv(s) && ReaderNext(s).Some?
    ensures ReaderNext(s).value.events == s.events
  {
    hide Traffic.Pop;
    if s.reader.FirstLook? || s.reader.AfterLoop? {
    } else if s.reader.Unlocking? || s.reader.GoingToSleep? {
    } else if s.reader.Locking? || s.reader.Relocking? {
    } else {
    }
  }

  lemma CloserLeavesEvents(s: State)
    requires Inv(s) && CloserNext(s).Some?
    ensures CloserNext(s).value.events == s.events
  {
    hide Traffic.Pop;
  }

  lemma {:induction false} FollowLeft(s: State, actions: seq<Action>)
    requires Inv(s) && LeftFirstLoop(s.events) && Follow(s, actions).Some?
    ensures LeftFirstLoop(Follow(s, actions).value.events)
    decreases |actions|
  {
    if actions != [] {
      hide Inv, Next, LeftFirstLoop;
      Keeps(s, actions[0]);
      StaysLeft(s, actions[0]);
      FollowLeft(Next(s, actions[0]).value, actions[1..]);
    }
  }

  /** A fatal error of the library ends the first loop for good; any other return goes on with it
      until the device is stopped. */
  lemma OnlyFatalErrorsLeave(s: State, actions: seq<Action>)
    requires Reachable(s) && s.events == Handling(false)
    ensures var r := Follow(s.(events := Cancelling), actions);
      Next(s, HandleReturns(true)) == Some(s.(events := Cancelling))
      && (r.Some? ==> LeftFirstLoop(r.value.events))
    ensures Follow(s, [HandleReturns(false), EventStep])
         == Some(if s.shutdown then s.(events := Cancelling) else s)
  {
    ReachableInv(s);
    Keeps(s, HandleReturns(true));
    var t := s.(events := Cancelling);
    if Follow(t, actions).Some? {
      FollowLeft(t, actions);
    }
    FollowFirst(s, HandleReturns(false), [EventStep]);
    FollowFirst(s.(events := LoopHead), EventStep, []);
  }

  /** hid_open_path returns, whichever thread reaches the barrier first and whatever becomes of
      the first submission. */
  lemma OpenReturns(s: State, accepted: bool) returns (actions: seq<Action>)
    requires Reachable(s) && s.opener != Opened
    ensures forall i :: 0 <= i < |actions| ==>
      actions[i] == FirstSubmission(accepted) || actions[i] == EventStep || actions[i] == OpenerArrives
    ensures var t := Follow(s, actions);
      && t.Some? && t.value.opener == Opened && t.value.events == LoopHead && t.value.transferLive
      && (s.events.Submitting? ==> t.value.firstAccepted == t.value.inFlight == accepted)
  {
    hide ReaderNext, CloserNext;
    ReachableInv(s);
    var first := if s.events.Submitting? then [FirstSubmission(accepted)] else [];
    var t := if s.events.Submitting? then Next(s, FirstSubmission(accepted)).value else s;
    FollowFirst(s, FirstSubmission(accepted), []);
    var arrive := if t.events.BarrierWait? then [] else [EventStep];
    var u := if t.events.BarrierWait? then t else EventNext(t).value;
    FollowFirst(t, EventStep, []);
    var open := if u.opener == Opened then [] else [OpenerArrives];
    FollowFirst(u, OpenerArrives, []);
    FollowBoth(t, arrive, open);
    FollowBoth(s, first, arrive + open);
    actions := first + (arrive + open);
  }
}
