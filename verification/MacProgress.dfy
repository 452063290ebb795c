/** What comes about in the mac back end: hid_open_path returns, reports are queued, queued reports
    are read, and no read waits for ever once the device is stopped. */
module MacProgress {
  import opened Bytes
  import opened ReportQueue
  import opened MacProtocol

  /** Steps in which nothing helps from outside: no spurious wake-up, no timeout, no report, and
      the run loop at most returns for a source it has handled. */
  predicate Plain(a: Action) {
    a.ReaderStep? || a.EventStep? || a.AppendAndSignal? || a == RunLoopReturns(HandledSource)
  }

  predicate AllPlain(actions: seq<Action>) {
    forall i :: 0 <= i < |actions| ==> Plain(actions[i])
  }

  lemma PlainFirst(a: Action, rest: seq<Action>)
    requires Plain(a) && AllPlain(rest)
    ensures AllPlain([a] + rest)
  {
  }

  lemma FollowFirst(s: State, a: Action, rest: seq<Action>)
    ensures Follow(s, [a] + rest)
         == match Next(s, a) case None => None case Some(t) => Follow(t, rest)
  {
    assert ([a] + rest)[1..] == rest;
  }

  lemma FollowOne(s: State, a: Action)
    ensures Follow(s, [a]) == Next(s, a)
  {
    FollowFirst(s, a, []);
    assert [a] + [] == [a];
  }

  lemma StepIs(s: State, i: nat, pc: ReaderPc)
    requires i < |s.readers|
    requires var l := Local(s.readers[i], s.mutex, s.q); ReaderMove(i, l, s.Stopped()) == Some(l.(pc := pc))
    ensures Next(s, ReaderStep(i)) == Some(s.With(i, pc))
  {
    hide ReaderMove;
  }

  lemma TakeIs(s: State, i: nat)
    requires i < |s.readers| && s.readers[i].Taking? && s.q.reports != []
    ensures var r := s.q.reports[0];
      Next(s, ReaderStep(i)) == Some(s.With(i, Unlocking(s.readers[i].mode, Data(r))).(q := s.q.Pop(Delivered(r))))
  {
    hide Traffic.Pop;
  }

  lemma PopReports(q: Traffic, f: Fate)
    requires q.reports != []
    ensures q.Pop(f).reports == q.reports[1..]
  {
  }

  /** A reader at its first look holds the mutex, and its own steps decide: a queued report is
      returned at once, */
  lemma TakesFirst(n: nat, g: Setting, s: State, i: nat)
    requires Reachable(n, g, s) && i < |s.readers| && s.readers[i].FirstLook? && s.q.reports != []
    ensures var r := Follow(s, [ReaderStep(i), ReaderStep(i)]);
      && r.Some? && r.value.q.reports == s.q.reports[1..]
      && r.value.readers == s.readers[i := Unlocking(s.readers[i].mode, Data(s.q.reports[0]))]
  {
    hide Next, Traffic.Pop, Inv;
    var mode := s.readers[i].mode;
    var t := s.With(i, Taking(mode));
    StepIs(s, i, Taking(mode));
    FollowFirst(s, ReaderStep(i), [ReaderStep(i)]);
    TakeIs(t, i);
    FollowOne(t, ReaderStep(i));
    assert t.readers[i := Unlocking(mode, Data(s.q.reports[0]))]
        == s.readers[i := Unlocking(mode, Data(s.q.reports[0]))];
    PopReports(s.q, Delivered(s.q.reports[0]));
  }

  /** a stopped device fails the read, and a non-blocking read returns nothing. */
  lemma AnswersEmpty(n: nat, g: Setting, s: State, i: nat)
    requires Reachable(n, g, s) && i < |s.readers| && s.readers[i].FirstLook? && s.q.reports == []
    requires s.Stopped() || s.readers[i].mode == NonBlocking
    ensures Follow(s, [ReaderStep(i), ReaderStep(i)])
         == Some(s.With(i, Unlocking(s.readers[i].mode, if s.Stopped() then Failed else NothingRead)))
  {
    hide Next, Inv;
    var mode := s.readers[i].mode;
    var pc := Unlocking(mode, if s.Stopped() then Failed else NothingRead);
    var t := s.With(i, FlagTest(mode));
    assert t.readers[i := pc] == s.readers[i := pc];
    StepIs(s, i, FlagTest(mode));
    FollowFirst(s, ReaderStep(i), [ReaderStep(i)]);
    StepIs(t, i, pc);
    FollowOne(t, ReaderStep(i));
  }

  /** How a wait ends, where the mutex is free: a timeout makes a timed read return nothing,
      whatever is queued by then; a wake-up, spurious or not, leads to the test of the flags. */
  lemma WaitEnds(n: nat, g: Setting, s: State, i: nat)
    requires Reachable(n, g, s) && i < |s.readers| && s.readers[i].Parked? && s.mutex == Nobody
    ensures var mode := s.readers[i].mode;
      && (mode == Timed ==>
            Follow(s, [WaitTimesOut(i), ReaderStep(i)])
            == Some(s.With(i, Unlocking(Timed, NothingRead)).(mutex := ReaderAt(i))))
      && Follow(s, [SpuriousWake(i), ReaderStep(i)]) == Some(s.With(i, Woken(mode)).(mutex := ReaderAt(i)))
      && (s.readers[i].woken ==>
            Follow(s, [ReaderStep(i), ReaderStep(i)]) == Some(s.With(i, Woken(mode)).(mutex := ReaderAt(i))))
  {
    hide Next, ReaderMove;
    var mode := s.readers[i].mode;
    LeavesWait(s, i);
    FollowFirst(s, SpuriousWake(i), [ReaderStep(i)]);
    FollowFirst(s, ReaderStep(i), [ReaderStep(i)]);
    RelockIs(s, i, Waking(mode), Woken(mode));
    FollowOne(s.With(i, Waking(mode)), ReaderStep(i));
    if mode == Timed {
      FollowFirst(s, WaitTimesOut(i), [ReaderStep(i)]);
      RelockIs(s, i, TimingOut(Timed), Unlocking(Timed, NothingRead));
      FollowOne(s.With(i, TimingOut(Timed)), ReaderStep(i));
    }
  }

  lemma LeavesWait(s: State, i: nat)
    requires i < |s.readers| && s.readers[i].Parked?
    ensures var mode := s.readers[i].mode;
      && Next(s, SpuriousWake(i)) == Some(s.With(i, Waking(mode)))
      && (mode == Timed ==> Next(s, WaitTimesOut(i)) == Some(s.With(i, TimingOut(Timed))))
      && (s.readers[i].woken ==> Next(s, ReaderStep(i)) == Some(s.With(i, Waking(mode))))
  {
    hide EventNext, CloserNext, Append, ReaderMove;
    if s.readers[i].woken {
      WokenMoves(i, Local(s.readers[i], s.mutex, s.q), s.Stopped());
      StepIs(s, i, Waking(s.readers[i].mode));
    }
  }

  lemma WokenMoves(i: nat, l: Local, stopped: bool)
    requires l.pc.Parked? && l.pc.woken
    ensures ReaderMove(i, l, stopped) == Some(l.(pc := Waking(l.pc.mode)))
  {
  }

  /** A reader that has left its wait takes the mutex again. */
  lemma RelockIs(s: State, i: nat, from: ReaderPc, to: ReaderPc)
    requires i < |s.readers| && s.mutex == Nobody
    requires (from.Waking? && to == Woken(from.mode)) || (from.TimingOut? && to == Unlocking(from.mode, NothingRead))
    ensures Next(s.With(i, from), ReaderStep(i)) == Some(s.With(i, to).(mutex := ReaderAt(i)))
  {
    hide EventNext, CloserNext, Append;
    assert s.readers[i := from][i := to] == s.readers[i := to];
  }

  /** What may happen at any time: an open device that is not being closed can be read by an idle
      reader, and closed, and reports may arrive while the run loop has control. */
  lemma MayBegin(n: nat, g: Setting, s: State, i: nat, mode: Mode, r: Report)
    requires Reachable(n, g, s) && s.opener == Opened && s.closer == NotClosing
    ensures i < |s.readers| && s.readers[i] == Idle && (mode == Timed ==> g.timed) ==>
      Next(s, ReadStart(i, mode)) == Some(s.With(i, Locking(mode)))
    ensures Next(s, CloseStart) == Some(s.(closer := SetShutdown))
    ensures s.events == RunLoop ==>
      Next(s, ReportArrives(r)).Some? && Next(s, ReportArrives(r)).value.arrived == s.arrived + [r]
  {
    hide Inv, ReaderNext, EventNext, CloserNext, Append;
    ReachableInv(n, g, s);
  }

  function ReaderRank(pc: ReaderPc): nat {
    match pc
    case Locking(_) => 12
    case FirstLook(_) => 11
    case FlagTest(_) => 10
    case Parked(_, woken) => if woken then 6 else 7
    case Waking(_) => 5
    case Woken(_) => 4
    case WaitTest(_) => 9
    case GoingToSleep(_) => 8
    case Taking(_) => 2
    case _ => 0
  }

  /** How far the read thread is from its broadcast once the device is stopped, and from giving
      back the mutex. */
  function ThreadRank(pc: EventPc): nat {
    match pc
    case CbLock(_) => 10
    case CbAppend(_) => 9
    case CbUnlock => 8
    case RunLoop => 7
    case LoopHead => 6
    case BroadcastLock => 5
    case Broadcast => 4
    case BroadcastUnlock => 3
    case _ => 0
  }

  /** Another part of the program moves and leaves the reader where it is, or wakes it. */
  predicate MovesAside(s: State, t: State, i: nat)
    requires i < |s.readers|
  {
    && i < |t.readers| && (t.readers[i] == s.readers[i] || t.readers[i] == Wake(s.readers[i]))
    && t.shutdown == s.shutdown && t.disconnected == s.disconnected
  }

  /** Another reader that holds the mutex goes on. */
  lemma OtherHolderMoves(s: State, i: nat)
    requires Inv(s) && i < |s.readers| && s.mutex.ReaderAt? && s.mutex.i != i
    ensures Next(s, ReaderStep(s.mutex.i)).Some?
    ensures var t := Next(s, ReaderStep(s.mutex.i)).value;
      MovesAside(s, t, i) && t.events == s.events && MutexRank(t) < MutexRank(s)
  {
    hide Inv, ReaderMove, MutexRank;
    MutexAdvances(s);
  }

  /** The read thread goes on towards its broadcast, or gives the mutex back. */
  lemma ThreadMoves(s: State, i: nat) returns (a: Action)
    requires Inv(s) && i < |s.readers| && s.readers[i] != Idle
    requires s.mutex == Events || (s.mutex == Nobody && s.Stopped() && !s.broadcastDone)
    ensures Plain(a) && Next(s, a).Some?
    ensures var t := Next(s, a).value;
      && MovesAside(s, t, i) && ThreadRank(t.events) < ThreadRank(s.events)
      && (s.q.reports != [] ==> t.q.reports != []) && |t.q.fates| >= |s.q.fates|
  {
    hide Served, Traffic.Conserved, Enqueue, HoldersHold, ReaderNext, Append, CloserNext;
    ReaderKnows(s.readers, Seen(s), i);
    if s.events.CbAppend? {
      var chosen := CanSignal(s);
      a := AppendAndSignal(chosen);
      AppendMoves(s, chosen, i);
    } else if s.events == RunLoop {
      a := RunLoopReturns(HandledSource);
    } else {
      a := EventStep;
      if s.events == Broadcast {
        assert WakeAll(s.readers)[i] == Wake(s.readers[i]);
      }
    }
  }

  lemma AppendMoves(s: State, chosen: Option<nat>, i: nat)
    requires Append(s, chosen).Some? && i < |s.readers|
    ensures var t := Append(s, chosen).value;
      MovesAside(s, t, i) && t.events == CbUnlock && t.q.reports != [] && |t.q.fates| >= |s.q.fates|
  {
    hide MayWake;
    if chosen.Some? {
      ChosenInRange(s, chosen);
    }
  }

  lemma ChosenInRange(s: State, chosen: Option<nat>)
    requires Append(s, chosen).Some? && chosen.Some?
    ensures chosen.value < |s.readers|
  {
  }

  /** The reader itself goes on. */
  lemma ReaderMoves(s: State, i: nat)
    requires Inv(s) && i < |s.readers| && s.Stopped() && !Asleep(s.readers[i])
    requires s.readers[i] != Idle && !s.readers[i].TimingOut? && !s.readers[i].Unlocking?
    requires s.mutex == Nobody || s.mutex == ReaderAt(i)
    ensures Next(s, ReaderStep(i)).Some?
    ensures var t := Next(s, ReaderStep(i)).value;
      && i < |t.readers| && t.Stopped() && ReaderRank(t.readers[i]) < ReaderRank(s.readers[i])
      && t.readers[i] != Idle && !t.readers[i].TimingOut?
      && (t.readers[i].Unlocking? ==> !t.readers[i].result.NothingRead?)
  {
    hide Served, Traffic.Conserved, Traffic.Pop, Phases, EventNext, CloserNext, Append;
    ReaderKnows(s.readers, Seen(s), i);
    HolderIs(s.readers, s.mutex, i);
  }

  lemma AsleepBefore(s: State, i: nat)
    requires Inv(s) && i < |s.readers| && Asleep(s.readers[i])
    ensures !s.broadcastDone && s.mutex != ReaderAt(i)
  {
    ReaderKnows(s.readers, Seen(s), i);
    HolderIs(s.readers, s.mutex, i);
  }

  /** A read in a stopped device comes to its end. */
  lemma EndComes(s: State, i: nat) returns (actions: seq<Action>)
    requires Inv(s) && i < |s.readers| && s.Stopped() && s.readers[i] != Idle && !s.readers[i].TimingOut?
    requires s.readers[i].Unlocking? ==> !s.readers[i].result.NothingRead?
    ensures AllPlain(actions) && Follow(s, actions).Some?
    ensures var t := Follow(s, actions).value;
      i < |t.readers| && t.readers[i].Unlocking? && !t.readers[i].result.NothingRead?
    decreases ReaderRank(s.readers[i]), ThreadRank(s.events), MutexRank(s)
  {
    hide Inv, Next, ReaderRank, ThreadRank, MutexRank;
    if s.readers[i].Unlocking? {
      return [];
    }
    var a := ReaderStep(i);
    if s.mutex.ReaderAt? && s.mutex.i != i {
      a := ReaderStep(s.mutex.i);
      OtherHolderMoves(s, i);
      WokenRank(s.readers[i]);
    } else if s.mutex == Events || Asleep(s.readers[i]) {
      if Asleep(s.readers[i]) {
        AsleepBefore(s, i);
      }
      a := ThreadMoves(s, i);
      WokenRank(s.readers[i]);
    } else {
      ReaderMoves(s, i);
    }
    Keeps(s, a);
    var rest := EndComes(Next(s, a).value, i);
    actions := [a] + rest;
    FollowFirst(s, a, rest);
    PlainFirst(a, rest);
  }

  lemma WokenRank(pc: ReaderPc)
    ensures Wake(pc) == pc || ReaderRank(Wake(pc)) < ReaderRank(pc)
  {
  }

  /** Once the device is stopped or gone no read waits for ever: it can return a report or a
      failure, whatever the other readers do. */
  lemma StoppedReadEnds(n: nat, g: Setting, s: State, i: nat)
    requires Reachable(n, g, s) && i < |s.readers| && s.Stopped()
    requires s.readers[i] != Idle && !s.readers[i].TimingOut? && !s.readers[i].Unlocking?
    ensures exists actions ::
      && AllPlain(actions) && Follow(s, actions).Some? && i < |Follow(s, actions).value.readers|
      && Follow(s, actions).value.readers[i].Unlocking?
      && !Follow(s, actions).value.readers[i].result.NothingRead?
  {
    hide Follow, AllPlain;
    ReachableInv(n, g, s);
    var actions := EndComes(s, i);
  }

  /** How far a reader that is due, or about to look, is from a queued report. */
  function TakeRank(pc: ReaderPc): nat {
    match pc
    case Locking(_) => 6
    case Parked(_, _) => 6
    case Waking(_) => 5
    case Woken(_) => 4
    case FirstLook(_) => 3
    case WaitTest(_) => 3
    case _ => 2
  }

  /** A report has just been delivered to some reader. */
  ghost predicate JustRead(s: State) {
    && s.q.fates != []
    && var last := s.q.fates[|s.q.fates| - 1];
       last.Delivered? && exists j :: 0 <= j < |s.readers| && Returns(s.readers[j], last.r)
  }

  predicate Returns(pc: ReaderPc, r: Report) {
    pc.Unlocking? && pc.result == Data(r)
  }

  /** One step of a reader that holds the mutex, or may take it, while a report is queued. */
  lemma ReaderTakes(s: State, i: nat)
    requires Inv(s) && i < |s.readers| && !s.Stopped() && s.q.reports != []
    requires Due(s.readers[i]) || s.readers[i].Locking? || s.readers[i].FirstLook?
    requires s.mutex == Nobody || s.mutex == ReaderAt(i)
    ensures Next(s, ReaderStep(i)).Some?
    ensures var t := Next(s, ReaderStep(i)).value;
      if s.readers[i].Taking? then JustRead(t) && |t.q.fates| > |s.q.fates|
      else
        && t.q == s.q && t.Stopped() == s.Stopped() && |t.readers| == |s.readers|
        && (Due(t.readers[i]) || t.readers[i].FirstLook?)
        && TakeRank(t.readers[i]) < TakeRank(s.readers[i])
  {
    hide Served, Traffic.Conserved, Phases, EventNext, CloserNext, Append;
    ReaderKnows(s.readers, Seen(s), i);
    HolderIs(s.readers, s.mutex, i);
    if s.readers[i].Taking? {
      var t := Next(s, ReaderStep(i)).value;
      assert Returns(t.readers[i], s.q.reports[0]);
    }
  }

  /** Another reader that holds the mutex takes the report, or goes on without it. */
  lemma HolderTakes(s: State, j: nat)
    requires Inv(s) && s.mutex == ReaderAt(j) && !s.Stopped() && s.q.reports != []
    ensures j < |s.readers| && Next(s, ReaderStep(j)).Some?
    ensures var t := Next(s, ReaderStep(j)).value;
      (JustRead(t) && |t.q.fates| > |s.q.fates|) || (t.q == s.q && t.Stopped() == s.Stopped())
  {
    hide Served, Traffic.Conserved, Phases, EventNext, CloserNext, Append, HoldersHold;
    MutexAdvances(s);
    ReaderKnows(s.readers, Seen(s), j);
    HolderIs(s.readers, s.mutex, j);
    if s.readers[j].Taking? {
      var t := Next(s, ReaderStep(j)).value;
      assert Returns(t.readers[j], s.q.reports[0]);
    }
  }

  lemma ReadComes(s: State, i: nat) returns (actions: seq<Action>)
    requires Inv(s) && i < |s.readers| && !s.Stopped() && s.q.reports != []
    requires Due(s.readers[i]) || s.readers[i].Locking? || s.readers[i].FirstLook?
    ensures AllPlain(actions) && Follow(s, actions).Some?
    ensures var t := Follow(s, actions).value; JustRead(t) && |t.q.fates| > |s.q.fates|
    decreases TakeRank(s.readers[i]), ThreadRank(s.events), MutexRank(s)
  {
    hide Inv, Next, TakeRank, ThreadRank, MutexRank, JustRead;
    var a := ReaderStep(i);
    if s.mutex.ReaderAt? && s.mutex.i != i {
      a := ReaderStep(s.mutex.i);
      OtherHolderMoves(s, i);
      HolderTakes(s, s.mutex.i);
    } else if s.mutex == Events {
      a := ThreadMoves(s, i);
    } else {
      ReaderTakes(s, i);
    }
    var t := Next(s, a).value;
    if JustRead(t) && |t.q.fates| > |s.q.fates| {
      actions := [a];
      FollowFirst(s, a, []);
      PlainFirst(a, []);
    } else {
      Keeps(s, a);
      var rest := ReadComes(t, i);
      actions := [a] + rest;
      FollowFirst(s, a, rest);
      PlainFirst(a, rest);
    }
  }

  /** In the settings in which no wake-up is lost, a queued report can always be read if some
      reader waits for one or is about to look, before the device is stopped: the signals that
      were given are enough. */
  lemma QueuedIsRead(n: nat, g: Setting, s: State, i: nat)
    requires Reachable(n, g, s) && Sound(g, n) && !s.Stopped() && s.q.reports != []
    requires i < |s.readers| && s.readers[i] != Idle && !s.readers[i].TimingOut? && !s.readers[i].Unlocking?
    ensures exists actions ::
      && AllPlain(actions) && Follow(s, actions).Some?
      && JustRead(Follow(s, actions).value) && |Follow(s, actions).value.q.fates| > |s.q.fates|
  {
    hide Follow, AllPlain, JustRead;
    ReachableInv(n, g, s);
    ReaderKnows(s.readers, Seen(s), i);
    var j := i;
    if Asleep(s.readers[i]) {
      CountSome(s.readers, i, Asleep);
      j := SomeDue(s.readers);
    }
    var actions := ReadComes(s, j);
  }

  lemma {:induction false} SomeDue(readers: seq<ReaderPc>) returns (j: nat)
    requires Count(readers, Due) > 0
    ensures j < |readers| && Due(readers[j])
  {
    if Due(readers[0]) {
      j := 0;
    } else {
      var k := SomeDue(readers[1..]);
      j := k + 1;
    }
  }

  lemma {:induction false} OpensFrom(s: State) returns (actions: seq<Action>)
    requires Inv(s) && s.opener != Opened
    ensures forall i :: 0 <= i < |actions| ==> actions[i] == EventStep || actions[i] == OpenerArrives
    ensures var t := Follow(s, actions);
      t.Some? && t.value.opener == Opened && t.value.events == LoopHead
    decreases if s.events == Starting then 2 else if s.events == BeforeStart then 1 else 0
  {
    hide Traffic.Conserved, HoldersHold, Views, Served, Handed, Follow;
    var a := if s.events == StartWait then OpenerArrives else EventStep;
    var t := Next(s, a).value;
    if t.opener == Opened {
      actions := [a];
      FollowOne(s, a);
    } else {
      Keeps(s, a);
      var rest := OpensFrom(t);
      actions := [a] + rest;
      FollowFirst(s, a, rest);
    }
  }

  /** hid_open_path returns, whichever thread reaches the barrier first. */
  lemma OpenReturns(n: nat, g: Setting, s: State) returns (actions: seq<Action>)
    requires Reachable(n, g, s) && s.opener != Opened
    ensures forall i :: 0 <= i < |actions| ==> actions[i] == EventStep || actions[i] == OpenerArrives
    ensures var t := Follow(s, actions);
      t.Some? && t.value.opener == Opened && t.value.events == LoopHead
  {
    ReachableInv(n, g, s);
    actions := OpensFrom(s);
  }

  lemma RunLoopNext(s: State)
    requires s.events == RunLoop
    ensures Next(s, DeviceRemoved) == Some(s.(disconnected := true))
    ensures Next(s, RunLoopReturns(Finished)) == Some(s.(disconnected := true, events := BroadcastLock))
    ensures Next(s, RunLoopReturns(Stopped)) == Some(s.(shutdown := true, events := BroadcastLock))
    ensures Next(s, RunLoopReturns(HandledSource)) == Some(s.(events := LoopHead))
    ensures Next(s, RunLoopReturns(TimedOut)) == Some(s.(events := LoopHead))
  {
  }

  lemma LoopHeadNext(s: State)
    requires s.events == LoopHead
    ensures Next(s, EventStep) == Some(s.(events := if s.Stopped() then BroadcastLock else RunLoop))
  {
  }

  /** The end of a device: its removal stops it, and so do the codes of the run loop that say
      that it has finished or was stopped; after the other codes the read thread goes on. */
  lemma RemovalStops(n: nat, g: Setting, s: State)
    requires Reachable(n, g, s) && s.events == RunLoop
    ensures var t := Next(s, DeviceRemoved); t.Some? && t.value == s.(disconnected := true)
    ensures var t := Next(s, RunLoopReturns(Finished));
      t.Some? && t.value.Stopped() && t.value.events.LoopLeft()
    ensures var t := Next(s, RunLoopReturns(Stopped));
      t.Some? && t.value.Stopped() && t.value.events.LoopLeft()
    ensures Follow(s, [RunLoopReturns(HandledSource), EventStep])
         == Follow(s, [RunLoopReturns(TimedOut), EventStep])
         == Some(if s.Stopped() then s.(events := BroadcastLock) else s)
  {
    hide Next;
    RunLoopNext(s);
    LoopHeadNext(s.(events := LoopHead));
    FollowFirst(s, RunLoopReturns(HandledSource), [EventStep]);
    FollowFirst(s, RunLoopReturns(TimedOut), [EventStep]);
    FollowOne(s.(events := LoopHead), EventStep);
  }
}
