/** The threads around one device of the mac back end, as interleaved steps: any number of
    readers inside hid_read_timeout, the read thread with its callbacks, hid_open_path at the
    start-up barrier, and hid_close.  Between two steps any other thread may run.

    Two settings vary the question.  `always` is the signalling policy of the report callback:
    this back end signals for every report; with `always` false it would signal only when the
    list was empty, as the libusb back end does.  `timed` says whether readers may wait for a
    limited time. */
module MacProtocol {
  import opened Bytes
  import opened ReportQueue

  datatype Owner = Nobody | ReaderAt(i: nat) | Events

  /** Where a reader is.  cond_wait and cond_timedwait test the flags after every wake-up, before
      the list; after a timeout they look at nothing. */
  datatype ReaderPc =
    | Idle
    | Locking(mode: Mode)
    | FirstLook(mode: Mode)
    | FlagTest(mode: Mode)
    | WaitTest(mode: Mode)
    | GoingToSleep(mode: Mode)
    | Parked(mode: Mode, woken: bool)
    | Waking(mode: Mode)
    | Woken(mode: Mode)
    | TimingOut(mode: Mode)
    | Taking(mode: Mode)
    | Unlocking(mode: Mode, result: ReadResult)
  {
    predicate Holding() {
      FirstLook? || FlagTest? || WaitTest? || GoingToSleep? || Woken? || Taking? || Unlocking?
    }
  }

  /** Asleep with no wake-up pending. */
  predicate Asleep(pc: ReaderPc) {
    pc.Parked? && !pc.woken
  }

  /** Woken and not through with the list yet, or about to take a report from it.  While
      nobody holds the mutex these are the woken readers that are yet to run. */
  predicate Due(pc: ReaderPc) {
    (pc.Parked? && pc.woken) || pc.Waking? || pc.Woken? || pc.WaitTest? || pc.Taking?
  }

  datatype EventPc =
    | Starting
    | BeforeStart
    | StartWait
    | LoopHead
    | RunLoop
    | CbLock(r: Report)
    | CbAppend(r: Report)
    | CbUnlock
    | BroadcastLock
    | Broadcast
    | BroadcastUnlock
    | BeforeBarrier
    | AtBarrier
    | Ended
  {
    /** The run loop is stored in the device, and the start-up barrier passed. */
    predicate Started() {
      !Starting? && !BeforeStart? && !StartWait?
    }

    predicate LoopLeft() {
      BroadcastLock? || Broadcast? || BroadcastUnlock? || BeforeBarrier? || AtBarrier? || Ended?
    }
  }

  datatype OpenPc = Creating | OpenWait | Opened

  datatype ClosePc = NotClosing | SetShutdown | WakeRunLoop | ReachBarrier | AtBarrierToo | Joining | Joined

  /** How CFRunLoopRunInMode returned. */
  datatype LoopCode = Finished | Stopped | TimedOut | HandledSource

  datatype Setting = Setting(always: bool, timed: bool)

  datatype State = State(
    setting: Setting,
    readers: seq<ReaderPc>,
    mutex: Owner,
    q: Traffic,
    shutdown: bool,
    disconnected: bool,
    events: EventPc,
    opener: OpenPc,
    closer: ClosePc,
    broadcastDone: bool,
    arrived: seq<Report>
  )
  {
    predicate Stopped() {
      shutdown || disconnected
    }

    function With(i: nat, pc: ReaderPc): State
      requires i < |readers|
    {
      this.(readers := readers[i := pc])
    }
  }

  /** calloc has cleared the device; the read thread was just created. */
  function Init(n: nat, g: Setting): State {
    State(g, seq(n, _ => Idle), Nobody, Traffic([], [], []), false, false, Starting, Creating, NotClosing, false, [])
  }

  datatype Action =
    | ReadStart(i: nat, mode: Mode)
    | ReaderStep(i: nat)
    | SpuriousWake(i: nat)
    | WaitTimesOut(i: nat)
    | EventStep
    | ReportArrives(r: Report)
    | AppendAndSignal(chosen: Option<nat>)
    | DeviceRemoved
    | RunLoopReturns(code: LoopCode)
    | OpenerArrives
    | CloseStart
    | CloserStep

  /** The part of the state that a reader's own steps change. */
  datatype Local = Local(pc: ReaderPc, mutex: Owner, q: Traffic)

  /** One step of hid_read_timeout by reader `i`. */
  function ReaderMove(i: nat, l: Local, stopped: bool): Option<Local> {
    match l.pc
    case Locking(mode) =>
      if l.mutex == Nobody then Some(l.(pc := FirstLook(mode), mutex := ReaderAt(i))) else None
    case FirstLook(mode) =>
      Some(l.(pc := if l.q.reports != [] then Taking(mode) else FlagTest(mode)))
    case FlagTest(mode) =>
      Some(l.(pc :=
        if stopped then Unlocking(mode, Failed)
        else if mode == NonBlocking then Unlocking(mode, NothingRead)
        else WaitTest(mode)))
    case WaitTest(mode) =>
      Some(l.(pc := if l.q.reports != [] then Taking(mode) else GoingToSleep(mode)))
    case GoingToSleep(mode) =>
      Some(l.(pc := Parked(mode, false), mutex := Nobody))
    case Parked(mode, true) =>
      Some(l.(pc := Waking(mode)))
    case Waking(mode) =>
      if l.mutex == Nobody then Some(l.(pc := Woken(mode), mutex := ReaderAt(i))) else None
    case Woken(mode) =>
      Some(l.(pc := if stopped then Unlocking(mode, Failed) else WaitTest(mode)))
    case TimingOut(mode) =>
      if l.mutex == Nobody then Some(l.(pc := Unlocking(mode, NothingRead), mutex := ReaderAt(i))) else None
    case Taking(mode) =>
      if l.q.reports == [] then None
      else
        var r := l.q.reports[0];
        Some(l.(pc := Unlocking(mode, Data(r)), q := l.q.Pop(Delivered(r))))
    case Unlocking(_, _) =>
      Some(l.(pc := Idle, mutex := Nobody))
    case _ => None
  }

  function ReaderNext(s: State, i: nat): Option<State>
    requires i < |s.readers|
  {
    match ReaderMove(i, Local(s.readers[i], s.mutex, s.q), s.Stopped())
    case None => None
    case Some(l) => Some(s.With(i, l.pc).(mutex := l.mutex, q := l.q))
  }

  function Wake(pc: ReaderPc): ReaderPc {
    if Asleep(pc) then Parked(pc.mode, true) else pc
  }

  function WakeAll(readers: seq<ReaderPc>): seq<ReaderPc> {
    seq(|readers|, i requires 0 <= i < |readers| => Wake(readers[i]))
  }

  predicate SomeAsleep(readers: seq<ReaderPc>) {
    exists i :: 0 <= i < |readers| && Asleep(readers[i])
  }

  /** Which reader a signal may wake: a sleeping one, and none only if none sleeps. */
  predicate MayWake(readers: seq<ReaderPc>, chosen: Option<nat>) {
    match chosen
    case Some(i) => i < |readers| && Asleep(readers[i])
    case None => !SomeAsleep(readers)
  }

  /** One step of read_thread that leaves the environment no choice. */
  function EventNext(s: State): Option<State> {
    match s.events
    case Starting => Some(s.(events := BeforeStart))
    case BeforeStart =>
      Some(if s.opener == OpenWait then s.(opener := Opened, events := LoopHead) else s.(events := StartWait))
    case LoopHead => Some(s.(events := if s.Stopped() then BroadcastLock else RunLoop))
    case CbLock(r) =>
      if s.mutex == Nobody then Some(s.(mutex := Events, events := CbAppend(r))) else None
    case CbUnlock => Some(s.(mutex := Nobody, events := RunLoop))
    case BroadcastLock =>
      if s.mutex == Nobody then Some(s.(mutex := Events, events := Broadcast)) else None
    case Broadcast =>
      Some(s.(readers := WakeAll(s.readers), broadcastDone := true, events := BroadcastUnlock))
    case BroadcastUnlock => Some(s.(mutex := Nobody, events := BeforeBarrier))
    case BeforeBarrier =>
      Some(if s.closer == AtBarrierToo then s.(events := Ended, closer := Joining) else s.(events := AtBarrier))
    case _ => None
  }

  function CloserNext(s: State): Option<State> {
    match s.closer
    case SetShutdown => Some(s.(shutdown := true, closer := WakeRunLoop))
    case WakeRunLoop => Some(s.(closer := ReachBarrier))
    case ReachBarrier =>
      Some(if s.events == AtBarrier then s.(events := Ended, closer := Joining) else s.(closer := AtBarrierToo))
    case Joining => if s.events == Ended then Some(s.(closer := Joined)) else None
    case _ => None
  }

  /** The callback's critical section: `chosen` is the reader that the signal wakes. */
  function Append(s: State, chosen: Option<nat>): Option<State> {
    if !s.events.CbAppend? then None
    else
      var t := s.(q := s.q.Arrive(s.events.r), events := CbUnlock);
      if s.setting.always || s.q.reports == [] then
        if !MayWake(s.readers, chosen) then None
        else if chosen.None? then Some(t)
        else Some(t.With(chosen.value, Wake(s.readers[chosen.value])))
      else if chosen.None? then Some(t) else None
  }

  /** The successor of `s`, or None where the action cannot happen. */
  function Next(s: State, a: Action): Option<State> {
    match a
    case ReadStart(i, mode) =>
      if i < |s.readers| && s.readers[i] == Idle && s.opener == Opened && s.closer == NotClosing
         && (mode == Timed ==> s.setting.timed)
      then Some(s.With(i, Locking(mode))) else None
    case ReaderStep(i) =>
      if i < |s.readers| then ReaderNext(s, i) else None
    case SpuriousWake(i) =>
      if i < |s.readers| && s.readers[i].Parked? then Some(s.With(i, Waking(s.readers[i].mode))) else None
    case WaitTimesOut(i) =>
      // A wait that times out may use up a signal that was meant for it.
      if i < |s.readers| && s.readers[i].Parked? && s.readers[i].mode == Timed
      then Some(s.With(i, TimingOut(Timed))) else None
    case EventStep => EventNext(s)
    case ReportArrives(r) =>
      if s.events == RunLoop then Some(s.(events := CbLock(r), arrived := s.arrived + [r])) else None
    case AppendAndSignal(chosen) => Append(s, chosen)
    case DeviceRemoved =>
      if s.events == RunLoop then Some(s.(disconnected := true)) else None
    case RunLoopReturns(code) =>
      if s.events != RunLoop then None
      else
        (match code
         case Finished => Some(s.(disconnected := true, events := BroadcastLock))
         case Stopped => Some(s.(shutdown := true, events := BroadcastLock))
         case _ => Some(s.(events := LoopHead)))
    case OpenerArrives =>
      if s.opener != Creating then None
      else if s.events == StartWait then Some(s.(opener := Opened, events := LoopHead))
      else Some(s.(opener := OpenWait))
    case CloseStart =>
      if s.opener == Opened && s.closer == NotClosing then Some(s.(closer := SetShutdown)) else None
    case CloserStep => CloserNext(s)
  }

  function Run(n: nat, g: Setting, actions: seq<Action>): Option<State> {
    if actions == [] then Some(Init(n, g))
    else
      match Run(n, g, actions[..|actions| - 1])
      case None => None
      case Some(s) => Next(s, actions[|actions| - 1])
  }

  function Count(readers: seq<ReaderPc>, p: ReaderPc -> bool): (c: nat)
    ensures c <= |readers|
  {
    if readers == [] then 0 else (if p(readers[0]) then 1 else 0) + Count(readers[1..], p)
  }

  lemma {:induction false} CountUpdate(readers: seq<ReaderPc>, i: nat, pc: ReaderPc, p: ReaderPc -> bool)
    requires i < |readers|
    ensures Count(readers[i := pc], p) + (if p(readers[i]) then 1 else 0)
         == Count(readers, p) + (if p(pc) then 1 else 0)
  {
    var after := readers[i := pc];
    if i == 0 {
      assert after[1..] == readers[1..];
    } else {
      assert after[1..] == readers[1..][i - 1 := pc];
      CountUpdate(readers[1..], i - 1, pc, p);
    }
  }

  lemma {:induction false} CountSome(readers: seq<ReaderPc>, i: nat, p: ReaderPc -> bool)
    requires i < |readers| && p(readers[i])
    ensures Count(readers, p) > 0
  {
    if i > 0 {
      CountSome(readers[1..], i - 1, p);
    }
  }

  lemma {:induction false} CountNone(readers: seq<ReaderPc>, p: ReaderPc -> bool)
    requires forall i :: 0 <= i < |readers| ==> !p(readers[i])
    ensures Count(readers, p) == 0
  {
    if readers != [] {
      forall i | 0 <= i < |readers[1..]| ensures !p(readers[1..][i]) {
        assert readers[1..][i] == readers[i + 1];
      }
      CountNone(readers[1..], p);
    }
  }

  lemma {:induction false} CountDisjoint(readers: seq<ReaderPc>)
    ensures Count(readers, Asleep) + Count(readers, Due) <= |readers|
  {
    if readers != [] {
      CountDisjoint(readers[1..]);
    }
  }

  /** No wake-up is lost: if a reader sleeps, every queued report has a woken reader that is
      yet to look. */
  predicate Served(readers: seq<ReaderPc>, q: Traffic) {
    Count(readers, Asleep) > 0 ==> |q.reports| <= Count(readers, Due)
  }

  predicate HoldersHold(readers: seq<ReaderPc>, mutex: Owner) {
    && (mutex.ReaderAt? ==> mutex.i < |readers|)
    && forall i :: 0 <= i < |readers| ==> (readers[i].Holding() <==> mutex == ReaderAt(i))
  }

  /** What readers see of the rest: whether the list is empty, what became of the report that
      left it last, and what holds around them. */
  datatype Shared = Shared(empty: bool, last: Option<Fate>, around: Around)
  datatype Around = Around(isOpen: bool, timed: bool, broadcastDone: bool, stopped: bool)

  function Seen(s: State): Shared {
    SeenWith(s.q, Around(s.opener == Opened, s.setting.timed, s.broadcastDone, s.Stopped()))
  }

  function SeenWith(q: Traffic, around: Around): Shared {
    Shared(q.reports == [], if q.fates == [] then None else Some(q.fates[|q.fates| - 1]), around)
  }

  /** What entitles a read to its result. */
  predicate Justified(mode: Mode, result: ReadResult, w: Shared) {
    match result
    case Data(r) => w.last == Some(Delivered(r))
    case NothingRead => mode != Blocking && (mode == NonBlocking ==> w.empty)
    case Failed => w.around.stopped
  }

  /** What a reader knows where it is. */
  predicate Knows(pc: ReaderPc, w: Shared) {
    && (pc.FlagTest? || pc.GoingToSleep? ==> w.empty)
    && (pc.Taking? ==> !w.empty)
    && (pc.WaitTest? || pc.GoingToSleep? || Asleep(pc) ==> !w.around.broadcastDone)
    && (pc.TimingOut? ==> pc.mode == Timed)
    && (pc.Unlocking? ==> Justified(pc.mode, pc.result, w))
    && (!pc.Idle? ==> w.around.isOpen && (pc.mode == Timed ==> w.around.timed))
  }

  predicate Views(readers: seq<ReaderPc>, w: Shared) {
    forall i :: 0 <= i < |readers| ==> Knows(readers[i], w)
  }

  predicate Phases(s: State) {
    && (s.mutex == Events <==>
          s.events.CbAppend? || s.events.CbUnlock? || s.events.Broadcast? || s.events.BroadcastUnlock?)
    && (s.opener == Opened <==> s.events.Started())
    && !(s.opener == OpenWait && s.events == StartWait)
    && (s.closer != NotClosing ==> s.opener == Opened)
    && (s.closer == NotClosing || s.closer == SetShutdown || s.shutdown)
    && (s.events.LoopLeft() ==> s.Stopped())
    && (s.broadcastDone <==>
          s.events.BroadcastUnlock? || s.events.BeforeBarrier? || s.events.AtBarrier? || s.events.Ended?)
    && (s.events == Ended <==> s.closer == Joining || s.closer == Joined)
    && !(s.events == AtBarrier && s.closer == AtBarrierToo)
  }

  /** The report the callback has in hand. */
  function InHand(pc: EventPc): seq<Report> {
    match pc
    case CbLock(r) => [r]
    case CbAppend(r) => [r]
    case _ => []
  }

  /** Every report that arrived is in the callback's hand or received. */
  predicate Handed(s: State) {
    s.arrived == s.q.received + InHand(s.events)
  }

  /** The settings in which no wake-up is lost among `n` readers. */
  predicate Sound(g: Setting, n: nat) {
    n <= 1 || (g.always && !g.timed)
  }

  predicate Inv(s: State) {
    && HoldersHold(s.readers, s.mutex)
    && Views(s.readers, Seen(s))
    && Phases(s)
    && Handed(s)
    && s.q.Conserved()
    && (Sound(s.setting, |s.readers|) && !s.Stopped() ==> Served(s.readers, s.q))
  }

  /** What a step does to the hold on the mutex. */
  predicate HoldStep(i: nat, l: Local, m: Local) {
    || (m.mutex == l.mutex && (m.pc.Holding() <==> l.pc.Holding()))
    || (l.mutex == Nobody && m.mutex == ReaderAt(i) && m.pc.Holding())
    || (l.pc.Holding() && m.mutex == Nobody && !m.pc.Holding())
  }

  lemma MoveHolds(i: nat, l: Local, stopped: bool)
    requires ReaderMove(i, l, stopped).Some?
    ensures HoldStep(i, l, ReaderMove(i, l, stopped).value)
  {
    hide Traffic.Pop;
  }

  /** A step that takes no report leaves the list alone. */
  lemma MoveKnows(i: nat, l: Local, around: Around)
    requires ReaderMove(i, l, around.stopped).Some? && Knows(l.pc, SeenWith(l.q, around))
    requires around.broadcastDone ==> around.stopped
    ensures var m := ReaderMove(i, l, around.stopped).value;
      Knows(m.pc, SeenWith(m.q, around)) && (!l.pc.Taking? ==> m.q == l.q)
  {
  }

  /** What a step does to the number of readers that are asleep, and of those that are due. */
  lemma MoveServes(i: nat, l: Local, around: Around)
    requires ReaderMove(i, l, around.stopped).Some? && Knows(l.pc, SeenWith(l.q, around)) && !around.stopped
    ensures var m := ReaderMove(i, l, around.stopped).value;
      if l.pc.Taking? then Due(l.pc) && !Due(m.pc) && !Asleep(m.pc) && |m.q.reports| == |l.q.reports| - 1
      else
        && m.q == l.q
        && (l.q.reports != [] ==> (Due(l.pc) ==> Due(m.pc)) && (Asleep(m.pc) ==> Asleep(l.pc)))
  {
    hide Traffic.Conserved;
  }

  lemma ReaderServes(s: State, i: nat)
    requires i < |s.readers| && ReaderNext(s, i).Some? && Knows(s.readers[i], Seen(s))
    requires Served(s.readers, s.q) && !s.Stopped()
    ensures Served(ReaderNext(s, i).value.readers, ReaderNext(s, i).value.q)
  {
    hide Count, Knows, ReaderMove, Traffic.Pop;
    var l := Local(s.readers[i], s.mutex, s.q);
    MoveServes(i, l, Seen(s).around);
    var m := ReaderMove(i, l, s.Stopped()).value;
    CountUpdate(s.readers, i, m.pc, Asleep);
    CountUpdate(s.readers, i, m.pc, Due);
  }

  lemma HoldMoves(readers: seq<ReaderPc>, i: nat, l: Local, m: Local)
    requires i < |readers| && readers[i] == l.pc
    requires HoldersHold(readers, l.mutex) && HoldStep(i, l, m)
    ensures HoldersHold(readers[i := m.pc], m.mutex)
  {
  }

  lemma HolderIs(readers: seq<ReaderPc>, mutex: Owner, i: nat)
    requires HoldersHold(readers, mutex) && i < |readers|
    ensures readers[i].Holding() <==> mutex == ReaderAt(i)
  {
  }

  lemma ReaderKnows(readers: seq<ReaderPc>, w: Shared, i: nat)
    requires Views(readers, w) && i < |readers|
    ensures Knows(readers[i], w)
  {
  }

  lemma NoReaderHolds(readers: seq<ReaderPc>, mutex: Owner, mutex': Owner)
    requires HoldersHold(readers, mutex) && !mutex.ReaderAt? && !mutex'.ReaderAt?
    ensures HoldersHold(readers, mutex')
  {
  }

  /** One reader moves and the list stays as it is. */
  lemma ViewMoves(readers: seq<ReaderPc>, w: Shared, i: nat, pc: ReaderPc)
    requires Views(readers, w) && i < |readers| && Knows(pc, w)
    ensures Views(readers[i := pc], w)
  {
  }

  /** The mutex holder may change the list: nobody else relies on it. */
  lemma ViewsElsewhere(readers: seq<ReaderPc>, mutex: Owner, i: nat, pc: ReaderPc,
                       w: Shared, w': Shared)
    requires HoldersHold(readers, mutex) && Views(readers, w)
    requires i < |readers| && readers[i].Holding() && Knows(pc, w') && w'.around == w.around
    ensures Views(readers[i := pc], w')
  {
    var moved := readers[i := pc];
    forall j | 0 <= j < |moved| ensures Knows(moved[j], w') {
      assert Knows(readers[j], w);
    }
  }

  lemma ReaderKeeps(s: State, i: nat)
    requires Inv(s) && i < |s.readers| && ReaderNext(s, i).Some?
    ensures Inv(ReaderNext(s, i).value)
  {
    hide Served, Traffic.Conserved, HoldersHold, Views, ReaderMove, HoldStep, Traffic.Pop, Knows;
    var t := ReaderNext(s, i).value;
    var l, around := Local(s.readers[i], s.mutex, s.q), Seen(s).around;
    var m := ReaderMove(i, l, s.Stopped()).value;
    HolderIs(s.readers, s.mutex, i);
    ReaderKnows(s.readers, Seen(s), i);
    MoveHolds(i, l, s.Stopped());
    MoveOwner(i, l, s.Stopped());
    HoldMoves(s.readers, i, l, m);
    MoveKnows(i, l, around);
    if l.pc.Taking? {
      MoveTakes(i, l, s.Stopped());
      ViewsElsewhere(s.readers, s.mutex, i, m.pc, Seen(s), Seen(t));
      PopConserves(s.q, Delivered(s.q.reports[0]));
    } else {
      ViewMoves(s.readers, Seen(s), i, m.pc);
    }
    if Sound(s.setting, |s.readers|) && !s.Stopped() {
      ReaderServes(s, i);
    }
  }

  lemma MoveTakes(i: nat, l: Local, stopped: bool)
    requires ReaderMove(i, l, stopped).Some? && l.pc.Taking?
    ensures l.q.reports != [] && ReaderMove(i, l, stopped).value.q == l.q.Pop(Delivered(l.q.reports[0]))
  {
  }

  /** A step does not touch the mutex while the read thread holds it. */
  lemma MoveOwner(i: nat, l: Local, stopped: bool)
    requires ReaderMove(i, l, stopped).Some? && (l.pc.Holding() <==> l.mutex == ReaderAt(i))
    ensures ReaderMove(i, l, stopped).value.mutex == Events <==> l.mutex == Events
  {
    hide Traffic.Pop;
  }

  /** A reader changes its place alone, outside the mutex. */
  lemma SteppedAside(s: State, i: nat, pc: ReaderPc)
    requires Inv(s) && i < |s.readers| && !s.readers[i].Holding() && !pc.Holding() && Knows(pc, Seen(s))
    requires Sound(s.setting, |s.readers|) && !s.Stopped() ==> Served(s.readers[i := pc], s.q)
    ensures Inv(s.With(i, pc))
  {
    hide Served, Traffic.Conserved, HoldersHold, Views, Knows, EventPc.LoopLeft, EventPc.Started;
    var l := Local(s.readers[i], s.mutex, s.q);
    HoldMoves(s.readers, i, l, l.(pc := pc));
    ViewMoves(s.readers, Seen(s), i, pc);
  }

  lemma SpuriousWakeKeeps(s: State, i: nat)
    requires Inv(s) && i < |s.readers| && s.readers[i].Parked?
    ensures Inv(s.With(i, Waking(s.readers[i].mode)))
  {
    hide Traffic.Conserved, HoldersHold, Views, Phases, Count;
    var pc := Waking(s.readers[i].mode);
    ReaderKnows(s.readers, Seen(s), i);
    CountUpdate(s.readers, i, pc, Asleep);
    CountUpdate(s.readers, i, pc, Due);
    SteppedAside(s, i, pc);
  }

  /** With timed readers only a single one is safe: it has nobody to leave asleep. */
  lemma TimeoutKeeps(s: State, i: nat)
    requires Inv(s) && i < |s.readers| && s.readers[i].Parked? && s.readers[i].mode == Timed
    ensures Inv(s.With(i, TimingOut(Timed)))
  {
    hide Traffic.Conserved, HoldersHold, Views, Phases, Count;
    ReaderKnows(s.readers, Seen(s), i);
    if |s.readers| <= 1 {
      CountNone(s.readers[i := TimingOut(Timed)], Asleep);
    }
    SteppedAside(s, i, TimingOut(Timed));
  }

  lemma ReadStartKeeps(s: State, i: nat, mode: Mode)
    requires Inv(s) && i < |s.readers| && s.readers[i] == Idle
    requires s.opener == Opened && (mode == Timed ==> s.setting.timed)
    ensures Inv(s.With(i, Locking(mode)))
  {
    hide Traffic.Conserved, HoldersHold, Views, Phases, Count;
    CountUpdate(s.readers, i, Locking(mode), Asleep);
    CountUpdate(s.readers, i, Locking(mode), Due);
    SteppedAside(s, i, Locking(mode));
  }

  lemma ArrivalServes(s: State, chosen: Option<nat>)
    requires Append(s, chosen).Some? && Sound(s.setting, |s.readers|) && Served(s.readers, s.q)
    ensures var t := Append(s, chosen).value; Served(t.readers, t.q)
  {
    hide Count;
    CountDisjoint(s.readers);
    match chosen
    case Some(i) =>
      var woken := Wake(s.readers[i]);
      CountSome(s.readers, i, Asleep);
      CountUpdate(s.readers, i, woken, Asleep);
      CountUpdate(s.readers, i, woken, Due);
    case None =>
      if s.setting.always || s.q.reports == [] {
        CountNone(s.readers, Asleep);
      }
  }

  /** The read thread holds the mutex: no reader relies on the list, and the one it wakes is
      asleep. */
  lemma ArrivalViews(readers: seq<ReaderPc>, w: Shared, w': Shared, chosen: Option<nat>)
    requires HoldersHold(readers, Events) && Views(readers, w) && w'.around == w.around
    requires chosen.Some? ==> chosen.value < |readers| && Asleep(readers[chosen.value])
    ensures var readers' := if chosen.None? then readers else readers[chosen.value := Wake(readers[chosen.value])];
      HoldersHold(readers', Events) && Views(readers', w')
  {
    forall i | 0 <= i < |readers| ensures Knows(readers[i], w') {
      assert Knows(readers[i], w);
    }
    if chosen.Some? {
      ViewMoves(readers, w', chosen.value, Wake(readers[chosen.value]));
    }
  }

  lemma ArrivalKeeps(s: State, chosen: Option<nat>)
    requires Inv(s) && Append(s, chosen).Some?
    ensures Inv(Append(s, chosen).value)
  {
    hide Served, Traffic.Conserved, Traffic.Arrive, HoldersHold, Views, Sound, SomeAsleep;
    ArriveConserves(s.q, s.events.r);
    ArrivalViews(s.readers, Seen(s), Seen(Append(s, chosen).value), chosen);
    if Sound(s.setting, |s.readers|) && !s.Stopped() {
      ArrivalServes(s, chosen);
    }
  }

  lemma StopKeeps(readers: seq<ReaderPc>, w: Shared)
    requires Views(readers, w)
    ensures Views(readers, w.(around := w.around.(stopped := true)))
  {
    var w' := w.(around := w.around.(stopped := true));
    forall i | 0 <= i < |readers| ensures Knows(readers[i], w') {
      assert Knows(readers[i], w);
    }
  }

  lemma OpenKeeps(readers: seq<ReaderPc>, w: Shared)
    requires Views(readers, w)
    ensures Views(readers, w.(around := w.around.(isOpen := true)))
  {
    var w' := w.(around := w.around.(isOpen := true));
    forall i | 0 <= i < |readers| ensures Knows(readers[i], w') {
      assert Knows(readers[i], w);
    }
  }

  lemma BroadcastKeeps(readers: seq<ReaderPc>, mutex: Owner, w: Shared)
    requires HoldersHold(readers, mutex) && Views(readers, w) && mutex == Events
    ensures HoldersHold(WakeAll(readers), mutex)
    ensures Views(WakeAll(readers), w.(around := w.around.(broadcastDone := true)))
  {
    var w' := w.(around := w.around.(broadcastDone := true));
    forall i | 0 <= i < |readers| ensures Knows(WakeAll(readers)[i], w') {
      assert Knows(readers[i], w);
    }
  }

  lemma EventsKeep(s: State)
    requires Inv(s) && EventNext(s).Some?
    ensures Inv(EventNext(s).value)
  {
    hide Served, Traffic.Conserved, HoldersHold, Views, WakeAll;
    if s.mutex == Nobody || s.mutex == Events {
      NoReaderHolds(s.readers, s.mutex, EventNext(s).value.mutex);
    }
    match s.events
    case BeforeStart => OpenKeeps(s.readers, Seen(s)); AroundIs(s, EventNext(s).value);
    case Broadcast => BroadcastKeeps(s.readers, s.mutex, Seen(s)); AroundIs(s, EventNext(s).value);
    case _ =>
  }

  lemma AroundIs(s: State, t: State)
    requires t.q == s.q
    ensures Seen(t) == Seen(s).(around := Seen(t).around)
  {
  }

  lemma CloserKeeps(s: State)
    requires Inv(s) && CloserNext(s).Some?
    ensures Inv(CloserNext(s).value)
  {
    hide Served, Traffic.Conserved, HoldersHold, Views;
    AroundIs(s, CloserNext(s).value);
    match s.closer
    case SetShutdown => StopKeeps(s.readers, Seen(s));
    case WakeRunLoop =>
    case ReachBarrier =>
    case Joining =>
  }

  lemma RunLoopKeeps(s: State, code: LoopCode)
    requires Inv(s) && Next(s, RunLoopReturns(code)).Some?
    ensures Inv(Next(s, RunLoopReturns(code)).value)
  {
    hide Served, Traffic.Conserved, HoldersHold, Views, ReaderNext, EventNext, CloserNext, Append;
    StopKeeps(s.readers, Seen(s));
    AroundIs(s, Next(s, RunLoopReturns(code)).value);
  }

  lemma OpenerKeeps(s: State)
    requires Inv(s) && Next(s, OpenerArrives).Some?
    ensures Inv(Next(s, OpenerArrives).value)
  {
    hide Served, Traffic.Conserved, HoldersHold, Views, ReaderNext, EventNext, CloserNext, Append;
    OpenKeeps(s.readers, Seen(s));
    AroundIs(s, Next(s, OpenerArrives).value);
  }

  lemma OthersKeep(s: State, a: Action)
    requires Inv(s) && Next(s, a).Some?
    requires a.ReportArrives? || a.DeviceRemoved? || a.CloseStart?
    ensures Inv(Next(s, a).value)
  {
    hide Served, Traffic.Conserved, HoldersHold, Views, ReaderNext, EventNext, CloserNext, Append;
    StopKeeps(s.readers, Seen(s));
    AroundIs(s, Next(s, a).value);
  }

  predicate SameSetting(s: State, t: State) {
    t.setting == s.setting && |t.readers| == |s.readers|
  }

  lemma KeepsSetting(s: State, a: Action)
    requires Next(s, a).Some?
    ensures SameSetting(s, Next(s, a).value)
  {
    hide Traffic.Arrive, SomeAsleep, ReaderMove;
    match a
    case EventStep =>
    case CloserStep =>
    case _ =>
  }

  lemma Keeps(s: State, a: Action)
    requires Inv(s) && Next(s, a).Some?
    ensures Inv(Next(s, a).value)
  {
    hide Inv, ReaderNext, EventNext, CloserNext, Append;
    match a
    case ReadStart(i, mode) => ReadStartKeeps(s, i, mode);
    case ReaderStep(i) => ReaderKeeps(s, i);
    case SpuriousWake(i) => SpuriousWakeKeeps(s, i);
    case WaitTimesOut(i) => TimeoutKeeps(s, i);
    case AppendAndSignal(chosen) => ArrivalKeeps(s, chosen);
    case EventStep => EventsKeep(s);
    case CloserStep => CloserKeeps(s);
    case RunLoopReturns(code) => RunLoopKeeps(s, code);
    case OpenerArrives => OpenerKeeps(s);
    case _ => OthersKeep(s, a);
  }

  lemma InitInv(n: nat, g: Setting)
    ensures Inv(Init(n, g))
  {
    CountNone(Init(n, g).readers, Asleep);
  }

  lemma {:induction false} Invariant(n: nat, g: Setting, actions: seq<Action>)
    requires Run(n, g, actions).Some?
    ensures var s := Run(n, g, actions).value;
      Inv(s) && s.setting == g && |s.readers| == n
  {
    hide Inv;
    if actions == [] {
      InitInv(n, g);
    } else {
      var before := actions[..|actions| - 1];
      Invariant(n, g, before);
      KeepsSetting(Run(n, g, before).value, actions[|actions| - 1]);
      Keeps(Run(n, g, before).value, actions[|actions| - 1]);
    }
  }

  ghost predicate Reachable(n: nat, g: Setting, s: State) {
    exists actions :: Run(n, g, actions) == Some(s)
  }

  lemma ReachableInv(n: nat, g: Setting, s: State)
    requires Reachable(n, g, s)
    ensures Inv(s) && s.setting == g && |s.readers| == n
  {
    var actions :| Run(n, g, actions) == Some(s);
    Invariant(n, g, actions);
  }

  /** Before shutdown and disconnection no wake-up is lost as long as nobody reads for a limited
      time, whatever the number of readers: if one sleeps with no wake-up pending, every queued
      report has a woken reader of its own that is yet to run or to take it.  And in every
      setting no reader sleeps through the final broadcast. */
  lemma NoLostWakeup(n: nat, g: Setting, s: State, i: nat)
    requires Reachable(n, g, s) && i < n
    ensures |s.readers| == n
    ensures Asleep(s.readers[i]) ==> !s.broadcastDone && s.events != Ended
    ensures g.always && !g.timed && Asleep(s.readers[i]) && !s.Stopped() ==>
      |s.q.reports| <= Count(s.readers, Due)
  {
    ReachableInv(n, g, s);
    ReaderKnows(s.readers, Seen(s), i);
    if Asleep(s.readers[i]) {
      CountSome(s.readers, i, Asleep);
    }
  }

  /** What a read returns: the report that was just delivered; nothing only if it does not block
      for ever, and then either there is nothing or its time is over; and failure only after
      shutdown or disconnection. */
  lemma ReadResults(n: nat, g: Setting, s: State, i: nat)
    requires Reachable(n, g, s) && i < |s.readers| && s.readers[i].Unlocking?
    ensures match s.readers[i].result
      case Data(r) => s.q.fates != [] && s.q.fates[|s.q.fates| - 1] == Delivered(r)
      case NothingRead =>
        s.readers[i].mode == Timed || (s.readers[i].mode == NonBlocking && s.q.reports == [])
      case Failed => s.Stopped()
  {
    ReachableInv(n, g, s);
    ReaderKnows(s.readers, Seen(s), i);
  }

  /** How a step of the read thread or of hid_close changes a reader's place: it may be woken. */
  lemma OthersMoveReader(s: State, a: Action, i: nat)
    requires Next(s, a).Some? && i < |s.readers|
    requires a.EventStep? || a.AppendAndSignal? || a.CloserStep?
    ensures var t := Next(s, a).value;
      i < |t.readers| && (t.readers[i] == s.readers[i] || t.readers[i] == Wake(s.readers[i]))
  {
    hide Traffic.Arrive, SomeAsleep;
    match a
    case EventStep => assert i < |WakeAll(s.readers)| && WakeAll(s.readers)[i] == Wake(s.readers[i]);
    case AppendAndSignal(chosen) =>
    case CloserStep =>
  }

  lemma MoveFindsNothing(i: nat, l: Local, stopped: bool)
    requires ReaderMove(i, l, stopped).Some?
    ensures var pc := ReaderMove(i, l, stopped).value.pc;
      !pc.TimingOut? && (pc == Unlocking(Timed, NothingRead) ==> l.pc == TimingOut(Timed))
  {
    hide Traffic.Pop;
  }

  /** A timed read returns nothing only after its wait timed out. */
  lemma NothingAfterTimeout(s: State, a: Action, i: nat)
    requires Next(s, a).Some? && i < |s.readers| && i < |Next(s, a).value.readers|
    requires Next(s, a).value.readers[i] != s.readers[i]
    ensures var pc := Next(s, a).value.readers[i];
      && (pc == Unlocking(Timed, NothingRead) ==> s.readers[i] == TimingOut(Timed))
      && (pc.TimingOut? ==> a == WaitTimesOut(i) && s.readers[i].Parked? && s.readers[i].mode == Timed)
  {
    hide ReaderMove, EventNext, CloserNext, Append, MayWake;
    match a
    case ReaderStep(j) => MoveFindsNothing(j, Local(s.readers[j], s.mutex, s.q), s.Stopped());
    case EventStep => OthersMoveReader(s, a, i);
    case AppendAndSignal(_) => OthersMoveReader(s, a, i);
    case CloserStep => OthersMoveReader(s, a, i);
    case _ =>
  }

  /** The report of every callback is delivered or dropped once and in order, or still queued, or
      in the callback's hand. */
  lemma Conservation(n: nat, g: Setting, s: State)
    requires Reachable(n, g, s)
    ensures s.q.Conserved()
    ensures s.arrived == Reports(s.q.fates) + s.q.reports + InHand(s.events)
  {
    ReachableInv(n, g, s);
  }

  /** The two barriers.  No reader and no hid_close sees the device before the read thread has
      stored its run loop.  The thread is still there when hid_close wakes that run loop, and
      hid_close goes on only after the thread has made its last broadcast and ended. */
  lemma BarrierOrder(n: nat, g: Setting, s: State, i: nat)
    requires Reachable(n, g, s)
    ensures (i < |s.readers| && s.readers[i] != Idle) || s.closer != NotClosing ==> s.events.Started()
    ensures s.closer.SetShutdown? || s.closer.WakeRunLoop? || s.closer.ReachBarrier? ==> s.events != Ended
    ensures s.closer.Joined? ==> s.events == Ended && s.broadcastDone && s.Stopped()
  {
    ReachableInv(n, g, s);
    if i < |s.readers| {
      ReaderKnows(s.readers, Seen(s), i);
    }
  }

  /** What follows from `s`. */
  function Follow(s: State, actions: seq<Action>): Option<State>
    decreases |actions|
  {
    if actions == [] then Some(s)
    else
      match Next(s, actions[0])
      case None => None
      case Some(t) => Follow(t, actions[1..])
  }

  function CloserRank(pc: ClosePc): nat {
    match pc
    case NotClosing => 6
    case SetShutdown => 5
    case WakeRunLoop => 4
    case ReachBarrier => 3
    case AtBarrierToo => 2
    case Joining => 1
    case Joined => 0
  }

  function EventRank(pc: EventPc): nat {
    match pc
    case CbLock(_) => 8
    case CbAppend(_) => 7
    case CbUnlock => 6
    case RunLoop => 5
    case LoopHead => 5
    case BroadcastLock => 4
    case Broadcast => 3
    case BroadcastUnlock => 2
    case BeforeBarrier => 1
    case _ => 0
  }

  /** How far a reader is from giving the mutex back. */
  function HolderRank(pc: ReaderPc): nat {
    match pc
    case FirstLook(_) => 6
    case FlagTest(_) => 5
    case Woken(_) => 5
    case WaitTest(_) => 4
    case GoingToSleep(_) => 3
    case Taking(_) => 3
    case Unlocking(_, _) => 2
    case _ => 0
  }

  function MutexRank(s: State): nat {
    if s.mutex.ReaderAt? && s.mutex.i < |s.readers| then HolderRank(s.readers[s.mutex.i]) else 0
  }

  /** The reader that holds the mutex gives it back, or comes closer to that. */
  lemma HolderAdvances(i: nat, l: Local, around: Around)
    requires l.pc.Holding() && l.mutex == ReaderAt(i) && Knows(l.pc, SeenWith(l.q, around))
    ensures ReaderMove(i, l, around.stopped).Some?
    ensures var m := ReaderMove(i, l, around.stopped).value;
      m.mutex == Nobody || (m.mutex == l.mutex && HolderRank(m.pc) < HolderRank(l.pc))
  {
    hide Traffic.Pop;
  }

  lemma MutexAdvances(s: State)
    requires Inv(s) && s.mutex.ReaderAt?
    ensures Next(s, ReaderStep(s.mutex.i)).Some?
    ensures var t := Next(s, ReaderStep(s.mutex.i)).value;
      t.closer == s.closer && t.events == s.events && MutexRank(t) < MutexRank(s)
  {
    hide Served, Traffic.Conserved, Views, ReaderMove, Knows, Traffic.Pop, Phases;
    var i := s.mutex.i;
    ReaderKnows(s.readers, Seen(s), i);
    HolderAdvances(i, Local(s.readers[i], s.mutex, s.q), Seen(s).around);
  }

  /** Some reader, or none, can be chosen for the signal. */
  lemma CanSignal(s: State) returns (chosen: Option<nat>)
    requires s.events.CbAppend?
    ensures Append(s, chosen).Some?
  {
    chosen := None;
    if (s.setting.always || s.q.reports == []) && SomeAsleep(s.readers) {
      var i: nat :| i < |s.readers| && Asleep(s.readers[i]);
      chosen := Some(i);
    }
  }

  /** The read thread can go on to its barrier, if need be after the reader
      that holds the mutex. */
  lemma EventsAdvance(s: State) returns (a: Action)
    requires Inv(s) && s.closer == AtBarrierToo
    ensures Next(s, a).Some?
    ensures var t := Next(s, a).value;
      && (t.closer == Joining || t.closer == AtBarrierToo)
      && (t.closer == Joining || EventRank(t.events) < EventRank(s.events)
          || (t.events == s.events && MutexRank(t) < MutexRank(s)))
  {
    hide Served, Traffic.Conserved, Traffic.Arrive, Views, HoldersHold, MutexRank, ReaderNext, Append;
    if s.mutex.ReaderAt? && (s.events.CbLock? || s.events.BroadcastLock?) {
      MutexAdvances(s);
      a := ReaderStep(s.mutex.i);
    } else if s.events.CbAppend? {
      var chosen := CanSignal(s);
      a := AppendAndSignal(chosen);
      AppendAdvances(s, chosen);
    } else if s.events == RunLoop {
      a := RunLoopReturns(Stopped);
    } else {
      a := EventStep;
    }
  }

  lemma AppendAdvances(s: State, chosen: Option<nat>)
    requires Append(s, chosen).Some?
    ensures var t := Append(s, chosen).value;
      t.closer == s.closer && t.events == CbUnlock
  {
    hide Traffic.Arrive, MayWake;
  }

  lemma CloserAdvances(s: State)
    requires Inv(s) && s.closer != NotClosing && s.closer != AtBarrierToo && s.closer != Joined
    ensures CloserNext(s).Some?
    ensures CloserRank(CloserNext(s).value.closer) < CloserRank(s.closer) && CloserNext(s).value.closer != NotClosing
  {
    hide Served, Traffic.Conserved, Views, HoldersHold;
  }

  lemma ClosesFrom(s: State) returns (actions: seq<Action>)
    requires Inv(s) && s.closer != NotClosing
    ensures Follow(s, actions).Some? && Follow(s, actions).value.closer == Joined
    decreases CloserRank(s.closer), EventRank(s.events), MutexRank(s)
  {
    hide Inv, Next, CloserNext, EventRank, MutexRank;
    if s.closer == Joined {
      return [];
    }
    var a := CloserStep;
    if s.closer == AtBarrierToo {
      a := EventsAdvance(s);
    } else {
      CloserAdvances(s);
      CloserStepIs(s);
    }
    Keeps(s, a);
    var rest := ClosesFrom(Next(s, a).value);
    actions := [a] + rest;
    assert actions[1..] == rest;
  }

  lemma CloserStepIs(s: State)
    ensures Next(s, CloserStep) == CloserNext(s)
  {
  }

  /** hid_close can always return: from every reachable state in which it has begun, whatever the
      readers are doing, some continuation gets it past the join. */
  lemma CloseCanReturn(n: nat, g: Setting, s: State)
    requires Reachable(n, g, s) && s.closer != NotClosing
    ensures exists actions :: Follow(s, actions).Some? && Follow(s, actions).value.closer == Joined
  {
    ReachableInv(n, g, s);
    var actions := ClosesFrom(s);
  }

  lemma Do(n: nat, g: Setting, s: State, a: Action) returns (t: State)
    requires Reachable(n, g, s) && Next(s, a).Some?
    ensures Reachable(n, g, t) && t == Next(s, a).value
  {
    var actions :| Run(n, g, actions) == Some(s);
    assert (actions + [a])[..|actions|] == actions;
    assert Run(n, g, actions + [a]) == Next(s, a);
    t := Next(s, a).value;
  }

  /** The device is open and the run loop has control. */
  function Ready(n: nat, g: Setting): State {
    Init(n, g).(events := RunLoop, opener := Opened)
  }

  lemma ReadyReached(n: nat, g: Setting)
    ensures Reachable(n, g, Ready(n, g))
  {
    assert Run(n, g, []) == Some(Init(n, g));
    var s := Do(n, g, Init(n, g), EventStep);
    s := Do(n, g, s, EventStep);
    s := Do(n, g, s, OpenerArrives);
    s := Do(n, g, s, EventStep);
    assert s == Ready(n, g);
  }

  /** An idle reader begins, and finds no report. */
  lemma FindNothing(n: nat, g: Setting, s: State, i: nat, mode: Mode)
    requires Reachable(n, g, s) && i < |s.readers| && s.readers[i] == Idle
    requires mode == Timed ==> s.setting.timed
    requires s.mutex == Nobody && s.opener == Opened && s.closer == NotClosing && s.q.reports == []
    ensures Reachable(n, g, s.With(i, FlagTest(mode)).(mutex := ReaderAt(i)))
  {
    hide Traffic.Pop, EventNext, CloserNext, Append;
    var t := Do(n, g, s, ReadStart(i, mode));
    t := Do(n, g, t, ReaderStep(i));
    t := Do(n, g, t, ReaderStep(i));
    assert t == s.With(i, FlagTest(mode)).(mutex := ReaderAt(i));
  }

  /** Then it goes to sleep. */
  lemma Park(n: nat, g: Setting, s: State, i: nat, mode: Mode)
    requires Reachable(n, g, s) && i < |s.readers| && s.readers[i] == Idle
    requires mode != NonBlocking && (mode == Timed ==> s.setting.timed)
    requires s.mutex == Nobody && s.opener == Opened && s.closer == NotClosing
    requires s.q.reports == [] && !s.Stopped()
    ensures Reachable(n, g, s.With(i, Parked(mode, false)))
  {
    hide Traffic.Pop, EventNext, CloserNext, Append;
    FindNothing(n, g, s, i, mode);
    var t := s.With(i, FlagTest(mode)).(mutex := ReaderAt(i));
    t := Do(n, g, t, ReaderStep(i));
    t := Do(n, g, t, ReaderStep(i));
    t := Do(n, g, t, ReaderStep(i));
    assert t == s.With(i, Parked(mode, false));
  }

  /** A report arrives while the run loop has control. */
  lemma Report(n: nat, g: Setting, s: State, r: Report, chosen: Option<nat>)
    requires Reachable(n, g, s) && s.events == RunLoop && s.mutex == Nobody
    requires if s.setting.always || s.q.reports == [] then MayWake(s.readers, chosen) else chosen == None
    ensures var t := s.(q := s.q.Arrive(r), arrived := s.arrived + [r]);
      Reachable(n, g, if chosen == None then t else t.With(chosen.value, Wake(s.readers[chosen.value])))
  {
    hide Traffic.Arrive;
    var t := Do(n, g, s, ReportArrives(r));
    t := Do(n, g, t, EventStep);
    t := Do(n, g, t, AppendAndSignal(chosen));
    t := Do(n, g, t, EventStep);
    var u := s.(q := s.q.Arrive(r), arrived := s.arrived + [r]);
    assert t == if chosen == None then u else u.With(chosen.value, Wake(s.readers[chosen.value]));
  }

  /** The first two readers where they are told, the others idle. */
  function Two(n: nat, first: ReaderPc, second: ReaderPc): seq<ReaderPc>
    requires n >= 2
  {
    seq<ReaderPc>(n, _ => Idle)[0 := first][1 := second]
  }

  lemma TwoCount(n: nat, first: ReaderPc, second: ReaderPc, p: ReaderPc -> bool)
    requires n >= 2 && !p(Idle)
    ensures Count(Two(n, first, second), p) == (if p(first) then 1 else 0) + (if p(second) then 1 else 0)
  {
    var idle := seq<ReaderPc>(n, _ => Idle);
    CountNone(idle, p);
    CountUpdate(idle, 0, first, p);
    CountUpdate(idle[0 := first], 1, second, p);
  }

  /** Two readers asleep, then one report, for which the first of them is woken. */
  lemma FirstWoken(n: nat, g: Setting, mode: Mode)
    requires n >= 2 && mode != NonBlocking && (mode == Timed ==> g.timed)
    ensures Reachable(n, g, Ready(n, g).(
      readers := Two(n, Parked(mode, true), Parked(Blocking, false)),
      q := Traffic([], [], []).Arrive([]), arrived := [[]]))
  {
    hide Next, Traffic.Arrive;
    ReadyReached(n, g);
    var s := Ready(n, g);
    Park(n, g, s, 0, mode);
    s := s.With(0, Parked(mode, false));
    Park(n, g, s, 1, Blocking);
    s := s.With(1, Parked(Blocking, false));
    assert Asleep(s.readers[0]);
    Report(n, g, s, [], Some(0));
    var t := s.(q := s.q.Arrive([]), arrived := s.arrived + [[]]).With(0, Wake(s.readers[0]));
    assert t.readers == Two(n, Parked(mode, true), Parked(Blocking, false));
    assert t.arrived == [[]];
  }

  lemma ArriveNonEmpty(q: Traffic, r: Report)
    ensures q.Arrive(r).reports != []
  {
  }

  /** With two sleeping readers, a callback that signals only for an empty list leaves one of
      them asleep although there is a report for it. */
  lemma SignalOnEmptyLosesWakeup(n: nat, g: Setting)
    requires n >= 2 && !g.always
    ensures exists s :: Reachable(n, g, s) && !s.Stopped() && !Served(s.readers, s.q)
  {
    hide Next, Count;
    FirstWoken(n, g, Blocking);
    var s := Ready(n, g).(
      readers := Two(n, Parked(Blocking, true), Parked(Blocking, false)),
      q := Traffic([], [], []).Arrive([]), arrived := [[]]);
    ArriveNonEmpty(Traffic([], [], []), []);
    Report(n, g, s, [], None);
    var t := s.(q := s.q.Arrive([]), arrived := s.arrived + [[]]);
    TwoCount(n, Parked(Blocking, true), Parked(Blocking, false), Asleep);
    TwoCount(n, Parked(Blocking, true), Parked(Blocking, false), Due);
    assert |t.q.reports| == 2;
    assert !Served(t.readers, t.q);
  }

  /** A timed reader beside another one can lose a wake-up under either policy: its wait times
      out when it has just been woken, and the report stays while the other one sleeps. */
  lemma TimeoutLosesWakeup(n: nat, g: Setting)
    requires n >= 2 && g.timed
    ensures exists s :: Reachable(n, g, s) && !s.Stopped() && !Served(s.readers, s.q)
  {
    hide Count, ReaderNext, EventNext, CloserNext, Append;
    FirstWoken(n, g, Timed);
    var s := Ready(n, g).(
      readers := Two(n, Parked(Timed, true), Parked(Blocking, false)),
      q := Traffic([], [], []).Arrive([]), arrived := [[]]);
    var t := Do(n, g, s, WaitTimesOut(0));
    assert t.readers == Two(n, TimingOut(Timed), Parked(Blocking, false));
    TwoCount(n, TimingOut(Timed), Parked(Blocking, false), Asleep);
    TwoCount(n, TimingOut(Timed), Parked(Blocking, false), Due);
    ArriveNonEmpty(Traffic([], [], []), []);
    assert !Served(t.readers, t.q);
  }

  /** So no wake-up is ever lost exactly if there is a single reader, or every report is
      signalled and nobody reads for a limited time.  The libusb back end signals for an empty
      list only and depends on m_dev_lock; this one signals always, but with several readers it
      depends on their blocking. */
  lemma PolicySoundIff(n: nat, g: Setting)
    ensures (forall s :: Reachable(n, g, s) && !s.Stopped() ==> Served(s.readers, s.q))
            <==> n <= 1 || (g.always && !g.timed)
  {
    hide Served, Count;
    if Sound(g, n) {
      forall s | Reachable(n, g, s) && !s.Stopped() ensures Served(s.readers, s.q) {
        ReachableInv(n, g, s);
      }
    } else if g.timed {
      TimeoutLosesWakeup(n, g);
    } else {
      SignalOnEmptyLosesWakeup(n, g);
    }
  }
}
