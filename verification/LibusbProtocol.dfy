/** The threads around one device of the libusb back end, as interleaved steps: a reader inside
    hid_read_timeout, the read thread with its transfer callback, hid_open_path waiting at the
    start-up barrier, and hid_close.  Between two steps any other thread may run.  There is one
    reader at a time and none beside hid_close, because hidpp_device holds m_dev_lock around
    both. */
module LibusbProtocol {
  import opened Bytes
  import opened ReportQueue

  datatype Owner = Nobody | Reader | Events | Closer

  /** Where the reader is.  From FirstLook to Unlocking it holds the mutex, except while it is
      parked in the condition wait or takes the mutex again after it. */
  datatype ReaderPc =
    | Outside
    | Locking
    | FirstLook
    | ShutdownLook
    | LoopTest
    | GoingToSleep
    | Parked(woken: bool)
    | Relocking(timedOut: bool)
    | AfterLoop
    | Unlocking(result: ReadResult)

  /** Where the read thread is; `drain` tells which of its two loops called the callback. */
  datatype EventPc =
    | Submitting
    | AtBarrier
    | BarrierWait
    | LoopHead
    | Handling(drain: bool)
    | CbLock(drain: bool, r: Report)
    | CbAppend(drain: bool, r: Report)
    | CbUnlock(drain: bool)
    | CbResubmit(drain: bool)
    | CbSetShutdown(drain: bool)
    | CbSetCancelled(drain: bool)
    | Cancelling
    | Draining
    | BroadcastLock
    | Broadcast
    | BroadcastUnlock
    | Ended
  {
    predicate InCallback() {
      CbLock? || CbAppend? || CbUnlock? || CbResubmit? || CbSetShutdown? || CbSetCancelled?
    }

    predicate AfterDrain() {
      BroadcastLock? || Broadcast? || BroadcastUnlock? || Ended?
    }
  }

  datatype OpenPc = Creating | OpenWait | Opened

  datatype ClosePc =
    | NotClosing | SetShutdown | RequestCancel | Joining | FreeTransfer
    | ClearLock | Clearing | ClearUnlock | Closed
  {
    predicate Joined() {
      FreeTransfer? || ClearLock? || Clearing? || ClearUnlock? || Closed?
    }
  }

  datatype Status = Completed(r: Report) | Cancelled | NoDevice | TimedOut | OtherStatus

  datatype State = State(
    reader: ReaderPc,
    mode: Mode,
    events: EventPc,
    opener: OpenPc,
    closer: ClosePc,
    mutex: Owner,
    devLock: Owner,
    barrier: nat,
    q: Traffic,
    shutdown: bool,
    cancelled: bool,
    firstAccepted: bool,
    inFlight: bool,
    asked: bool,
    transferLive: bool,
    broadcastDone: bool,
    completed: seq<Report>
  )

  /** calloc has cleared the device; the read thread was just created. */
  const INIT := State(
    Outside, Blocking, Submitting, Creating, NotClosing, Nobody, Nobody, 0,
    Traffic([], [], []), false, false, false, false, false, false, false, [])

  datatype Action =
    | ReadStart(mode: Mode)
    | ReaderStep
    | SpuriousWake
    | WaitTimesOut
    | FirstSubmission(accepted: bool)
    | EventStep
    | HandleReturns(fatal: bool)
    | TransferEnds(status: Status)
    | Resubmission(accepted: bool)
    | OpenerArrives
    | CloseStart
    | CloserStep

  function Take(s: State): State
    requires s.q.reports != []
  {
    s.(q := s.q.Pop(Delivered(s.q.reports[0])), reader := Unlocking(Data(s.q.reports[0])))
  }

  /** One step of hid_read_timeout. */
  function ReaderNext(s: State): Option<State> {
    match s.reader
    case Locking =>
      if s.mutex == Nobody then Some(s.(mutex := Reader, reader := FirstLook)) else None
    case FirstLook =>
      Some(if s.q.reports != [] then Take(s) else s.(reader := ShutdownLook))
    case ShutdownLook =>
      Some(s.(reader :=
        if s.shutdown then Unlocking(Failed)
        else if s.mode == NonBlocking then Unlocking(NothingRead)
        else LoopTest))
    case LoopTest =>
      Some(s.(reader := if s.q.reports == [] && !s.shutdown then GoingToSleep else AfterLoop))
    case GoingToSleep =>
      Some(s.(mutex := Nobody, reader := Parked(false)))
    case Parked(true) =>
      Some(s.(reader := Relocking(false)))
    case Relocking(timedOut) =>
      if s.mutex == Nobody
      then Some(s.(mutex := Reader, reader := if timedOut then Unlocking(NothingRead) else LoopTest))
      else None
    case AfterLoop =>
      Some(if s.q.reports != [] then Take(s) else s.(reader := Unlocking(Failed)))
    case Unlocking(_) =>
      Some(s.(mutex := Nobody, devLock := Nobody, reader := Outside))
    case _ => None
  }

  function Wake(pc: ReaderPc): ReaderPc {
    if pc == Parked(false) then Parked(true) else pc
  }

  /** The callback's critical section; it signals only if the list was empty. */
  function Arrive(s: State, r: Report): State {
    s.(q := s.q.Arrive(r),
       reader := if s.q.reports == [] then Wake(s.reader) else s.reader)
  }

  /** One step of read_thread or read_callback that leaves the environment no choice. */
  function EventNext(s: State): Option<State> {
    match s.events
    case AtBarrier =>
      Some(if s.barrier + 1 >= 2
           then s.(barrier := 0, opener := Opened, events := LoopHead)
           else s.(barrier := s.barrier + 1, events := BarrierWait))
    case LoopHead =>
      Some(s.(events := if s.shutdown then Cancelling else Handling(false)))
    case CbLock(drain, r) =>
      if s.mutex == Nobody then Some(s.(mutex := Events, events := CbAppend(drain, r))) else None
    case CbAppend(drain, r) =>
      Some(Arrive(s, r).(events := CbUnlock(drain)))
    case CbUnlock(drain) =>
      Some(s.(mutex := Nobody, events := CbResubmit(drain)))
    case CbSetShutdown(drain) =>
      Some(s.(shutdown := true, events := CbSetCancelled(drain)))
    case CbSetCancelled(drain) =>
      Some(s.(cancelled := true, events := Handling(drain)))
    case Cancelling =>
      Some(s.(asked := s.inFlight, events := Draining))
    case Draining =>
      Some(s.(events := if s.cancelled then BroadcastLock else Handling(true)))
    case BroadcastLock =>
      if s.mutex == Nobody then Some(s.(mutex := Events, events := Broadcast)) else None
    case Broadcast =>
      Some(s.(broadcastDone := true, reader := Wake(s.reader), events := BroadcastUnlock))
    case BroadcastUnlock =>
      Some(s.(mutex := Nobody, events := Ended))
    case _ => None
  }

  /** The transfer in flight ends and its callback begins.  A transfer ends as cancelled only if
      this was asked for while it was in flight; it may also end otherwise before the request
      takes effect. */
  function Callback(status: Status, drain: bool): EventPc {
    match status
    case Completed(r) => CbLock(drain, r)
    case Cancelled => CbSetShutdown(drain)
    case NoDevice => CbSetShutdown(drain)
    case TimedOut => CbResubmit(drain)
    case OtherStatus => CbResubmit(drain)
  }

  function CloserNext(s: State): Option<State> {
    match s.closer
    case SetShutdown => Some(s.(shutdown := true, closer := RequestCancel))
    case RequestCancel => Some(s.(asked := s.inFlight, closer := Joining))
    case Joining => if s.events == Ended then Some(s.(closer := FreeTransfer)) else None
    case FreeTransfer => Some(s.(transferLive := false, closer := ClearLock))
    case ClearLock => if s.mutex == Nobody then Some(s.(mutex := Closer, closer := Clearing)) else None
    case Clearing =>
      Some(if s.q.reports == [] then s.(closer := ClearUnlock)
           else s.(q := s.q.Pop(Discarded(s.q.reports[0]))))
    case ClearUnlock => Some(s.(mutex := Nobody, devLock := Nobody, closer := Closed))
    case _ => None
  }

  /** The successor of `s`, or None where the action cannot happen. */
  function Next(s: State, a: Action): Option<State> {
    match a
    case ReadStart(mode) =>
      if s.reader == Outside && s.devLock == Nobody && s.opener == Opened && s.closer == NotClosing
      then Some(s.(reader := Locking, mode := mode, devLock := Reader)) else None
    case ReaderStep => ReaderNext(s)
    case SpuriousWake =>
      if s.reader.Parked? then Some(s.(reader := Relocking(false))) else None
    case WaitTimesOut =>
      if s.reader.Parked? && s.mode == Timed then Some(s.(reader := Relocking(true))) else None
    case FirstSubmission(accepted) =>
      if s.events == Submitting
      then Some(s.(firstAccepted := accepted, inFlight := accepted, transferLive := true, events := AtBarrier))
      else None
    case EventStep => EventNext(s)
    case HandleReturns(fatal) =>
      if s.events.Handling?
      then Some(s.(events := if s.events.drain then Draining else if fatal then Cancelling else LoopHead))
      else None
    case TransferEnds(status) =>
      if s.events.Handling? && s.inFlight && (status == Cancelled ==> s.asked)
      then Some(s.(inFlight := false, asked := false, events := Callback(status, s.events.drain),
                   completed := if status.Completed? then s.completed + [status.r] else s.completed))
      else None
    case Resubmission(accepted) =>
      if s.events.CbResubmit?
      then Some(if accepted then s.(inFlight := true, events := Handling(s.events.drain))
                else s.(events := CbSetShutdown(s.events.drain)))
      else None
    case OpenerArrives =>
      if s.opener == Creating
      then Some(if s.barrier + 1 >= 2
                then s.(barrier := 0, opener := Opened, events := LoopHead)
                else s.(barrier := s.barrier + 1, opener := OpenWait))
      else None
    case CloseStart =>
      if s.opener == Opened && s.devLock == Nobody && s.closer == NotClosing
      then Some(s.(closer := SetShutdown, devLock := Closer)) else None
    case CloserStep => CloserNext(s)
  }

  function Run(actions: seq<Action>): Option<State> {
    if actions == [] then Some(INIT)
    else
      match Run(actions[..|actions| - 1])
      case None => None
      case Some(s) => Next(s, actions[|actions| - 1])
  }

  /** Who holds which lock. */
  predicate Locks(s: State) {
    && (s.mutex == Reader <==>
          s.reader.FirstLook? || s.reader.ShutdownLook? || s.reader.LoopTest?
          || s.reader.GoingToSleep? || s.reader.AfterLoop? || s.reader.Unlocking?)
    && (s.mutex == Events <==>
          s.events.CbAppend? || s.events.CbUnlock? || s.events.Broadcast? || s.events.BroadcastUnlock?)
    && (s.mutex == Closer <==> s.closer.Clearing? || s.closer.ClearUnlock?)
    && (s.devLock == Reader <==> s.reader != Outside)
    && (s.devLock == Closer <==> s.closer != NotClosing && s.closer != Closed)
    && s.devLock != Events
    && (s.reader != Outside ==> s.closer == NotClosing)
  }

  /** The order in which the device starts and stops. */
  predicate Phases(s: State) {
    && (s.opener != Opened ==> s.reader == Outside && s.closer == NotClosing)
    && (s.opener == Opened <==> !s.events.Submitting? && !s.events.AtBarrier? && !s.events.BarrierWait?)
    && s.barrier == (if s.opener == OpenWait || s.events == BarrierWait then 1 else 0)
    && !(s.opener == OpenWait && s.events == BarrierWait)
    && (s.closer.Joined() ==> s.events == Ended)
    && (s.closer.NotClosing? || s.closer.SetShutdown? || s.shutdown)
    && (s.transferLive <==> s.events != Submitting && (!s.closer.Joined() || s.closer.FreeTransfer?))
  }

  /** What the flags say about the transfer. */
  predicate Transfer(s: State) {
    && (s.cancelled ==> s.shutdown)
    && (s.shutdown && s.closer.NotClosing? ==> s.cancelled || s.events.CbSetCancelled?)
    && (s.asked ==> s.inFlight)
    && (s.events.CbSetCancelled? ==> s.shutdown)
    && (s.events.Submitting? ==> !s.inFlight && !s.cancelled)
    && (s.events.InCallback() ==> !s.inFlight && !s.cancelled && s.firstAccepted)
    && (!s.firstAccepted ==> !s.inFlight && !s.cancelled)
    && (s.firstAccepted && !s.events.InCallback() ==> (s.cancelled <==> !s.inFlight))
    && (s.events.AfterDrain() ==> s.cancelled)
    && (s.broadcastDone <==> s.events.BroadcastUnlock? || s.events.Ended?)
  }

  /** What entitles hid_read to its result. */
  predicate Justified(s: State, result: ReadResult) {
    match result
    case Data(r) => s.q.fates != [] && s.q.fates[|s.q.fates| - 1] == Delivered(r)
    case NothingRead => s.mode != Blocking && (s.mode == NonBlocking ==> s.q.reports == [])
    case Failed => s.shutdown && s.q.reports == []
  }

  /** What the reader may rely on. */
  predicate Waiting(s: State) {
    && (s.reader.ShutdownLook? || s.reader.GoingToSleep? ==> s.q.reports == [])
    && (s.reader.GoingToSleep? || s.reader == Parked(false) ==> s.q.reports == [] && !s.broadcastDone)
    && (s.reader.AfterLoop? ==> s.q.reports != [] || s.shutdown)
    && (s.reader == Relocking(true) ==> s.mode == Timed)
    && (s.reader.Unlocking? ==> Justified(s, s.reader.result))
    && (s.closer.ClearUnlock? || s.closer.Closed? ==> s.q.reports == [])
  }

  /** The report the callback has in hand. */
  function InHand(pc: EventPc): seq<Report> {
    match pc
    case CbLock(_, r) => [r]
    case CbAppend(_, r) => [r]
    case _ => []
  }

  /** Every transfer that completed has its report in the callback's hand or received. */
  predicate Handed(s: State) {
    s.completed == s.q.received + InHand(s.events)
  }

  predicate Inv(s: State) {
    Locks(s) && Phases(s) && Transfer(s) && Waiting(s) && Handed(s) && s.q.Conserved()
  }

  /** The steps of the reader that may take a report. */
  lemma ReaderTakes(s: State)
    requires Inv(s) && ReaderNext(s).Some?
    requires s.reader.FirstLook? || s.reader.AfterLoop?
    ensures Inv(ReaderNext(s).value)
  {
    hide Traffic.Conserved, Enqueue;
    if s.q.reports != [] {
      PopConserves(s.q, Delivered(s.q.reports[0]));
    }
  }

  /** Those around the wait. */
  lemma ReaderWaits(s: State)
    requires Inv(s) && ReaderNext(s).Some?
    requires s.reader.LoopTest? || s.reader.GoingToSleep? || s.reader.Parked? || s.reader.Relocking?
    ensures Inv(ReaderNext(s).value)
  {
    hide Traffic.Conserved, Enqueue;
    match s.reader
    case LoopTest =>
    case GoingToSleep =>
    case Parked(_) =>
    case Relocking(_) =>
  }

  lemma ReaderKeeps(s: State)
    requires Inv(s) && ReaderNext(s).Some?
    ensures Inv(ReaderNext(s).value)
  {
    hide Traffic.Conserved, Enqueue;
    if s.reader.FirstLook? || s.reader.AfterLoop? {
      ReaderTakes(s);
    } else if s.reader.Locking? || s.reader.ShutdownLook? || s.reader.Unlocking? {
    } else {
      ReaderWaits(s);
    }
  }

  lemma AppendKeeps(s: State)
    requires Inv(s) && s.events.CbAppend?
    ensures Inv(EventNext(s).value)
  {
    hide Traffic.Conserved, Enqueue;
    ArriveConserves(s.q, s.events.r);
    ArriveKeepsSome(s.q, s.events.r);
  }

  lemma ArriveKeepsSome(q: Traffic, r: Report)
    ensures q.Arrive(r).reports != []
  {
  }

  lemma CallbackKeeps(s: State)
    requires Inv(s) && EventNext(s).Some? && s.events.InCallback()
    ensures Inv(EventNext(s).value)
  {
    hide Traffic.Conserved, Traffic.Arrive;
    match s.events
    case CbAppend(drain, r) => AppendKeeps(s);
    case CbLock(drain, r) =>
    case CbUnlock(drain) =>
    case CbSetShutdown(drain) =>
    case CbSetCancelled(drain) =>
  }

  lemma BroadcastKeeps(s: State)
    requires Inv(s) && EventNext(s).Some? && s.events.AfterDrain()
    ensures Inv(EventNext(s).value)
  {
    hide Traffic.Conserved;
    match s.events
    case BroadcastLock =>
    case Broadcast =>
    case BroadcastUnlock =>
  }

  lemma LoopKeeps(s: State)
    requires Inv(s) && EventNext(s).Some? && (s.events.LoopHead? || s.events.Cancelling? || s.events.Draining?)
    ensures Inv(EventNext(s).value)
  {
    hide Traffic.Conserved;
    match s.events
    case LoopHead =>
    case Cancelling =>
    case Draining =>
  }

  lemma ThreadKeeps(s: State)
    requires Inv(s) && EventNext(s).Some? && !s.events.InCallback()
    ensures Inv(EventNext(s).value)
  {
    if s.events.AfterDrain() {
      hide Inv, EventNext;
      BroadcastKeeps(s);
    } else if s.events.AtBarrier? {
      hide Traffic.Conserved, Traffic.Arrive;
    } else {
      hide Inv;
      LoopKeeps(s);
    }
  }

  lemma CloserKeeps(s: State)
    requires Inv(s) && CloserNext(s).Some?
    ensures Inv(CloserNext(s).value)
  {
    hide Traffic.Conserved, Enqueue;
    if s.q.reports != [] {
      PopConserves(s.q, Discarded(s.q.reports[0]));
    }
  }

  lemma SubmissionKeeps(s: State, a: Action)
    requires Inv(s) && Next(s, a).Some?
    requires a.FirstSubmission? || a.Resubmission?
    ensures Inv(Next(s, a).value)
  {
    hide Traffic.Conserved, ReaderNext, EventNext, CloserNext;
    match a
    case FirstSubmission(accepted) =>
    case Resubmission(accepted) =>
  }

  lemma HandlingKeeps(s: State, a: Action)
    requires Inv(s) && Next(s, a).Some?
    requires a.HandleReturns? || a.TransferEnds?
    ensures Inv(Next(s, a).value)
  {
    hide Traffic.Conserved, ReaderNext, EventNext, CloserNext;
    match a
    case HandleReturns(fatal) =>
    case TransferEnds(status) =>
  }

  lemma OthersKeep(s: State, a: Action)
    requires Inv(s) && Next(s, a).Some?
    requires a.ReadStart? || a.SpuriousWake? || a.WaitTimesOut? || a.OpenerArrives? || a.CloseStart?
    ensures Inv(Next(s, a).value)
  {
    hide Traffic.Conserved, ReaderNext, EventNext, CloserNext;
    match a
    case ReadStart(mode) =>
    case OpenerArrives =>
    case CloseStart =>
    case _ =>
  }

  lemma Keeps(s: State, a: Action)
    requires Inv(s) && Next(s, a).Some?
    ensures Inv(Next(s, a).value)
  {
    hide Locks, Phases, Transfer, Waiting, Handed, Traffic.Conserved;
    match a
    case ReaderStep => ReaderKeeps(s);
    case EventStep => if s.events.InCallback() { CallbackKeeps(s); } else { ThreadKeeps(s); }
    case CloserStep => CloserKeeps(s);
    case ReadStart(_) => OthersKeep(s, a);
    case SpuriousWake => OthersKeep(s, a);
    case WaitTimesOut => OthersKeep(s, a);
    case OpenerArrives => OthersKeep(s, a);
    case CloseStart => OthersKeep(s, a);
    case HandleReturns(_) => HandlingKeeps(s, a);
    case TransferEnds(_) => HandlingKeeps(s, a);
    case _ => SubmissionKeeps(s, a);
  }

  lemma {:induction false} Invariant(actions: seq<Action>)
    requires Run(actions).Some?
    ensures Inv(Run(actions).value)
  {
    if actions != [] {
      hide Inv, Next;
      var before := actions[..|actions| - 1];
      Invariant(before);
      Keeps(Run(before).value, actions[|actions| - 1]);
    }
  }

  /** `s` is reached by some run. */
  ghost predicate Reachable(s: State) {
    exists actions :: Run(actions) == Some(s)
  }

  lemma ReachableInv(s: State)
    requires Reachable(s)
    ensures Inv(s)
  {
    var actions :| Run(actions) == Some(s);
    Invariant(actions);
  }

  /** No wake-up is lost: a reader that sleeps with no wake-up pending has nothing to read, and
      the broadcast that ends all waiting is still to come. */
  lemma NoLostWakeup(s: State)
    requires Reachable(s)
    ensures s.reader == Parked(false) ==> s.q.reports == [] && !s.broadcastDone && s.events != Ended
  {
    ReachableInv(s);
  }

  /** What hid_read returns: the report that was just delivered; nothing only if the read does
      not block for ever, and then either there is nothing or its time is over; and failure only
      after shutdown with nothing left to read. */
  lemma ReadResults(s: State)
    requires Reachable(s) && s.reader.Unlocking?
    ensures match s.reader.result
      case Data(r) => s.q.fates != [] && s.q.fates[|s.q.fates| - 1] == Delivered(r)
      case NothingRead => s.mode == Timed || (s.mode == NonBlocking && s.q.reports == [])
      case Failed => s.shutdown && s.q.reports == []
  {
    ReachableInv(s);
  }

  /** How the reader's place changes by a step of the read thread: it may be woken. */
  lemma EventsMoveReader(s: State)
    requires Inv(s) && EventNext(s).Some?
    ensures EventNext(s).value.reader == s.reader || EventNext(s).value.reader == Wake(s.reader)
    ensures EventNext(s).value.mode == s.mode
  {
    hide Traffic.Arrive;
    match s.events
    case AtBarrier =>
    case LoopHead =>
    case CbLock(_, _) =>
    case CbAppend(_, _) =>
    case CbUnlock(_) =>
    case CbSetShutdown(_) =>
    case CbSetCancelled(_) =>
    case Cancelling =>
    case Draining =>
    case BroadcastLock =>
    case Broadcast =>
    case BroadcastUnlock =>
  }

  lemma CloserLeavesReader(s: State)
    requires Inv(s) && CloserNext(s).Some?
    ensures CloserNext(s).value.reader == s.reader && CloserNext(s).value.mode == s.mode
  {
    hide Traffic.Pop;
    match s.closer
    case SetShutdown =>
    case RequestCancel =>
    case Joining =>
    case FreeTransfer =>
    case ClearLock =>
    case Clearing =>
    case ClearUnlock =>
  }

  lemma ReaderFindsNothing(s: State)
    requires Inv(s) && ReaderNext(s).Some?
    ensures ReaderNext(s).value.reader != Relocking(true)
    ensures s.mode == Timed && s.reader != Relocking(true) ==> ReaderNext(s).value.reader != Unlocking(NothingRead)
    ensures ReaderNext(s).value.mode == s.mode
  {
    hide Traffic.Pop;
    if s.reader.FirstLook? || s.reader.AfterLoop? {
    } else if s.reader.Unlocking? || s.reader.GoingToSleep? {
    } else if s.reader.Locking? || s.reader.Relocking? {
    } else {
    }
  }

  /** A timed read returns nothing only after its wait timed out. */
  lemma NothingAfterTimeout(s: State, a: Action)
    requires Reachable(s) && Next(s, a).Some?
    ensures var t := Next(s, a).value;
      && (t.reader == Unlocking(NothingRead) && t.reader != s.reader && t.mode == Timed ==>
            s.reader == Relocking(true))
      && (t.reader == Relocking(true) && t.reader != s.reader ==>
            a == WaitTimesOut && s.reader.Parked? && s.mode == Timed)
  {
    hide ReaderNext, EventNext, CloserNext, Inv;
    ReachableInv(s);
    match a
    case ReaderStep => ReaderFindsNothing(s);
    case EventStep => EventsMoveReader(s);
    case CloserStep => CloserLeavesReader(s);
    case _ =>
  }

  /** The report of every completed transfer is delivered, dropped or discarded exactly once and
      in order, or still queued, or in the callback's hand; never more than 32 are queued, and
      one is dropped only when 32 were.  After hid_close nothing is left over. */
  lemma Conservation(s: State)
    requires Reachable(s)
    ensures
      && s.q.Conserved()
      && s.completed == Reports(s.q.fates) + s.q.reports + InHand(s.events)
      && (s.closer.Closed? ==> s.completed == Reports(s.q.fates))
  {
    ReachableInv(s);
  }

  /** Given that the first submission succeeds, outside the callback `cancelled` means that no
      transfer is in flight, and it implies `shutdown_thread`.  The read thread ends only then,
      and the transfer is freed only after the thread has ended. */
  lemma TransferLifetime(s: State)
    requires Reachable(s)
    ensures
      && (s.firstAccepted && !s.events.InCallback() ==> (s.cancelled <==> !s.inFlight))
      && (s.cancelled ==> s.shutdown)
      && (s.inFlight ==> s.transferLive)
      && (s.events == Ended ==> s.cancelled && !s.inFlight)
      && (s.events != Submitting && !s.transferLive ==> s.events == Ended && s.reader == Outside)
  {
    ReachableInv(s);
  }

  /** hid_open_path returns only after the transfer exists, so no reader and no hid_close sees
      the device before; and no reader is inside hid_read while hid_close runs. */
  lemma StartAndStopOrder(s: State)
    requires Reachable(s)
    ensures
      && (s.opener == Opened ==> s.events != Submitting)
      && (s.reader != Outside ==> s.opener == Opened && s.transferLive && s.closer == NotClosing)
      && (s.closer.FreeTransfer? ==> s.transferLive && s.events == Ended)
  {
    ReachableInv(s);
  }

  lemma Extend(actions: seq<Action>, a: Action)
    requires Run(actions).Some?
    ensures Run(actions + [a]) == Next(Run(actions).value, a)
  {
    assert (actions + [a])[..|actions|] == actions;
  }

  lemma Do(s: State, a: Action) returns (t: State)
    requires Reachable(s) && Next(s, a).Some?
    ensures Reachable(t) && t == Next(s, a).value
  {
    var actions :| Run(actions) == Some(s);
    Extend(actions, a);
    t := Next(s, a).value;
  }

  /** What follows from `s`. */
  function Follow(s: State, actions: seq<Action>): Option<State>
    decreases |actions|
  {
    if actions == [] then Some(s)
    else
      match Next(s, actions[0])
      case None => None
      case Some(t) => Follow(t, actions[1..])
  }

  /** What happens while the device stays attached: no transfer ends for want of the device and no
      submission is refused. */
  predicate WhileAttached(a: Action) {
    a != TransferEnds(NoDevice) && a != Resubmission(false)
  }

  predicate AllWhileAttached(actions: seq<Action>) {
    forall i :: 0 <= i < |actions| ==> WhileAttached(actions[i])
  }

  /** The read thread is in its second loop, and the callback has not decided that it may leave. */
  predicate InDrain(pc: EventPc) {
    || pc.Draining?
    || ((pc.Handling? || pc.CbLock? || pc.CbAppend? || pc.CbUnlock? || pc.CbResubmit?) && pc.drain)
  }

  /** Both cancellations have been asked for and are used up, and the transfer lives on: it ended
      otherwise, and the callback has submitted it again or is about to. */
  predicate Lost(s: State) {
    s.closer.Joining? && InDrain(s.events) && !s.cancelled && !s.asked
  }

  /** A way for hid_close to go on: its own steps, and while it waits for the read thread those of
      that thread.  A callback in the second loop first submits the transfer again, so that there
      is something to cancel; if it is too late for that, the device has to go. */
  function Advance(s: State): Action {
    match s.events
    case Handling(drain) =>
      if !s.closer.Joining? then CloserStep
      else if !drain || s.cancelled then HandleReturns(false)
      else TransferEnds(if s.asked then Cancelled else NoDevice)
    case CbResubmit(drain) =>
      if s.closer.Joining? || (s.closer.RequestCancel? && drain) then Resubmission(!Lost(s)) else CloserStep
    case Ended => CloserStep
    case _ =>
      if s.closer.Joining? || (s.closer.RequestCancel? && InDrain(s.events) && s.events.InCallback())
      then EventStep else CloserStep
  }

  function CloserRank(pc: ClosePc): nat {
    match pc
    case NotClosing => 8
    case SetShutdown => 7
    case RequestCancel => 6
    case Joining => 5
    case FreeTransfer => 4
    case ClearLock => 3
    case Clearing => 2
    case ClearUnlock => 1
    case Closed => 0
  }

  /** How far the read thread is from its end. */
  function EventRank(pc: EventPc, cancelled: bool): nat {
    match pc
    case CbLock(drain, _) => if drain then 7 else 16
    case CbAppend(drain, _) => if drain then 6 else 15
    case CbUnlock(drain) => if drain then 5 else 14
    case CbResubmit(drain) => if drain then 4 else 13
    case Handling(drain) => if !drain then 12 else if cancelled then 10 else 8
    case LoopHead => 11
    case Cancelling => 10
    case Draining => 9
    case CbSetShutdown(_) => 3
    case CbSetCancelled(_) => 2
    case BroadcastLock => 3
    case Broadcast => 2
    case BroadcastUnlock => 1
    case _ => 0
  }

  /** The same, or how far it is from leaving the callback while hid_close is about to ask. */
  function Rank(closer: ClosePc, events: EventPc, cancelled: bool): nat {
    if closer.RequestCancel? && !events.InCallback() then 0 else EventRank(events, cancelled)
  }

  /** What a step of that way achieves. */
  predicate Nearer(s: State, t: State) {
    && t.firstAccepted && !t.closer.NotClosing?
    && (|| CloserRank(t.closer) < CloserRank(s.closer)
        || (t.closer == s.closer && !s.cancelled && t.cancelled)
        || (t.closer == s.closer && t.cancelled == s.cancelled
            && Rank(t.closer, t.events, t.cancelled) < Rank(s.closer, s.events, s.cancelled))
        || (t == s.(q := t.q) && |t.q.reports| < |s.q.reports|))
  }

  /** While hid_close waits for the read thread, that thread can go on: in the callback, */
  lemma CallbackAdvances(s: State)
    requires Inv(s) && s.closer.Joining? && s.events.InCallback()
    ensures Next(s, Advance(s)).Some? && Nearer(s, Next(s, Advance(s)).value)
    ensures !Lost(s) ==> WhileAttached(Advance(s)) && !Lost(Next(s, Advance(s)).value)
  {
    hide Traffic.Conserved, Enqueue, Traffic.Arrive, Waiting, ReaderNext, CloserNext, EventPc.AfterDrain;
    match s.events
    case CbLock(_, _) =>
    case CbAppend(_, _) =>
    case CbUnlock(_) =>
    case CbResubmit(_) =>
    case CbSetShutdown(_) =>
    case CbSetCancelled(_) =>
  }

  /** in its two loops, */
  lemma LoopAdvances(s: State)
    requires Inv(s) && s.closer.Joining? && s.firstAccepted
    requires s.events.Handling? || s.events.LoopHead? || s.events.Cancelling? || s.events.Draining?
    ensures Next(s, Advance(s)).Some? && Nearer(s, Next(s, Advance(s)).value)
    ensures !Lost(s) ==> WhileAttached(Advance(s)) && !Lost(Next(s, Advance(s)).value)
  {
    hide Traffic.Conserved, Waiting, ReaderNext, CloserNext;
    match s.events
    case Handling(drain) =>
    case LoopHead =>
    case Cancelling =>
    case Draining =>
  }

  /** and behind them. */
  lemma EventsAdvance(s: State)
    requires Inv(s) && s.closer.Joining? && s.events != Ended && s.firstAccepted
    ensures Next(s, Advance(s)).Some? && Nearer(s, Next(s, Advance(s)).value)
    ensures !Lost(s) ==> WhileAttached(Advance(s)) && !Lost(Next(s, Advance(s)).value)
  {
    if s.events.InCallback() {
      CallbackAdvances(s);
    } else if s.events.AfterDrain() {
      hide Traffic.Conserved, Enqueue, Traffic.Arrive, Waiting, ReaderNext, CloserNext;
      match s.events
      case BroadcastLock =>
      case Broadcast =>
      case BroadcastUnlock =>
    } else {
      hide Next, Advance, Nearer, Lost, WhileAttached;
      LoopAdvances(s);
    }
  }

  /** Before hid_close asks for the cancellation, a callback of the second loop may come first. */
  lemma AskAdvances(s: State)
    requires Inv(s) && s.closer.RequestCancel? && s.firstAccepted
    ensures Next(s, Advance(s)).Some? && Nearer(s, Next(s, Advance(s)).value)
    ensures WhileAttached(Advance(s)) && !Lost(Next(s, Advance(s)).value)
  {
    hide Traffic.Conserved, Enqueue, Traffic.Arrive, Waiting, ReaderNext;
    match s.events
    case Handling(drain) =>
    case CbLock(_, _) =>
    case CbAppend(_, _) =>
    case CbResubmit(_) =>
    case _ =>
  }

  /** The other steps of hid_close are its own. */
  lemma CloserAdvances(s: State)
    requires Inv(s) && !s.closer.NotClosing? && !s.closer.Closed? && !s.closer.RequestCancel? && s.firstAccepted
    requires s.closer.Joining? ==> s.events == Ended
    ensures Advance(s) == CloserStep && CloserNext(s).Some? && Nearer(s, CloserNext(s).value)
    ensures !Lost(CloserNext(s).value)
  {
    hide Traffic.Conserved, Enqueue, Waiting;
  }

  lemma ClosesFrom(s: State) returns (actions: seq<Action>)
    requires Inv(s) && !s.closer.NotClosing? && s.firstAccepted
    ensures Follow(s, actions).Some? && Follow(s, actions).value.closer.Closed?
    ensures !Lost(s) ==> AllWhileAttached(actions)
    decreases CloserRank(s.closer), if s.cancelled then 0 else 1,
              Rank(s.closer, s.events, s.cancelled), |s.q.reports|
  {
    hide Inv, CloserNext, EventNext, CloserRank, Rank, Lost, WhileAttached, Advance;
    if s.closer.Closed? {
      return [];
    }
    if s.closer.RequestCancel? {
      AskAdvances(s);
    } else if s.closer.Joining? && s.events != Ended {
      EventsAdvance(s);
    } else {
      CloserAdvances(s);
    }
    Keeps(s, Advance(s));
    var rest := ClosesFrom(Next(s, Advance(s)).value);
    actions := [Advance(s)] + rest;
    assert actions[1..] == rest;
    if !Lost(s) {
      AttachedFirst(Advance(s), rest);
    }
  }

  lemma AttachedFirst(a: Action, rest: seq<Action>)
    requires WhileAttached(a) && AllWhileAttached(rest)
    ensures AllWhileAttached([a] + rest)
  {
  }

  /** Once the thread has started, the fate of the first submission stands. */
  lemma SubmissionStands(s: State, a: Action)
    requires Inv(s) && !s.closer.NotClosing? && Next(s, a).Some?
    ensures Next(s, a).value.firstAccepted == s.firstAccepted && !Next(s, a).value.closer.NotClosing?
  {
    hide Traffic.Conserved, Enqueue, Traffic.Arrive, Waiting;
    match a
    case ReaderStep =>
    case EventStep =>
    case CloserStep =>
    case _ =>
  }

  lemma {:induction false} FollowKeeps(s: State, actions: seq<Action>)
    requires Inv(s) && !s.closer.NotClosing? && Follow(s, actions).Some?
    ensures Inv(Follow(s, actions).value) && Follow(s, actions).value.firstAccepted == s.firstAccepted
    decreases |actions|
  {
    if actions != [] {
      hide Inv, Next;
      Keeps(s, actions[0]);
      SubmissionStands(s, actions[0]);
      FollowKeeps(Next(s, actions[0]).value, actions[1..]);
    }
  }

  ghost predicate CanReturn(s: State) {
    exists actions :: Follow(s, actions).Some? && Follow(s, actions).value.closer.Closed?
  }

  /** The same, with the device attached all the time. */
  ghost predicate CanReturnAttached(s: State) {
    exists actions ::
      AllWhileAttached(actions) && Follow(s, actions).Some? && Follow(s, actions).value.closer.Closed?
  }

  /** The first submission decides: from every reachable state in which hid_close has begun, it
      can still return, if need be because the device goes away, exactly if that submission was
      accepted. */
  lemma CloseReturnsIffAccepted(s: State)
    requires Reachable(s) && !s.closer.NotClosing?
    ensures CanReturn(s) <==> s.firstAccepted
  {
    hide Follow, Next, Lost;
    ReachableInv(s);
    if s.firstAccepted {
      var actions := ClosesFrom(s);
    } else {
      forall actions | Follow(s, actions).Some? ensures !Follow(s, actions).value.closer.Closed? {
        FollowKeeps(s, actions);
      }
    }
  }

  lemma StaysLost(s: State, a: Action)
    requires Inv(s) && Lost(s) && WhileAttached(a) && Next(s, a).Some?
    ensures Lost(Next(s, a).value)
  {
    hide Traffic.Conserved, Enqueue, Traffic.Arrive, Waiting;
    match a
    case ReaderStep =>
    case EventStep =>
    case CloserStep =>
    case _ =>
  }

  lemma {:induction false} FollowLost(s: State, actions: seq<Action>)
    requires Inv(s) && Lost(s) && AllWhileAttached(actions) && Follow(s, actions).Some?
    ensures Lost(Follow(s, actions).value)
    decreases |actions|
  {
    if actions != [] {
      hide Inv, Next, Lost, WhileAttached;
      Keeps(s, actions[0]);
      StaysLost(s, actions[0]);
      FollowLost(Next(s, actions[0]).value, actions[1..]);
    }
  }

  /** While the device stays attached, hid_close can still return exactly if the first submission
      was accepted and the transfer has not outlived both cancellations. */
  lemma CloseReturnsAttachedIff(s: State)
    requires Reachable(s) && !s.closer.NotClosing?
    ensures CanReturnAttached(s) <==> s.firstAccepted && !Lost(s)
  {
    hide Follow, Next, AllWhileAttached;
    ReachableInv(s);
    if s.firstAccepted && !Lost(s) {
      var actions := ClosesFrom(s);
    } else {
      forall actions | AllWhileAttached(actions) && Follow(s, actions).Some?
        ensures !Follow(s, actions).value.closer.Closed?
      {
        FollowKeeps(s, actions);
        if Lost(s) {
          FollowLost(s, actions);
        }
      }
    }
  }

  /** Both fates of the first submission occur. */
  lemma ClosingReached(accepted: bool) returns (s: State)
    ensures Reachable(s) && s.firstAccepted == accepted
    ensures s == INIT.(events := LoopHead, opener := Opened, closer := SetShutdown, devLock := Closer,
                       firstAccepted := accepted, inFlight := accepted, transferLive := true)
  {
    hide ReaderNext, CloserNext;
    assert Run([]) == Some(INIT);
    s := Do(INIT, FirstSubmission(accepted));
    s := Do(s, EventStep);
    s := Do(s, OpenerArrives);
    s := Do(s, CloseStart);
  }

  /** hid_close has asked for the cancellation and waits for the read thread. */
  lemma AskedReached() returns (s: State)
    ensures Reachable(s)
    ensures s == INIT.(events := LoopHead, opener := Opened, closer := Joining, devLock := Closer,
                       shutdown := true, firstAccepted := true, inFlight := true, asked := true, transferLive := true)
  {
    hide ReaderNext, EventNext;
    s := ClosingReached(true);
    s := Do(s, CloserStep);
    s := Do(s, CloserStep);
  }

  /** The read thread has asked for it, too. */
  lemma BothAsked() returns (s: State)
    ensures Reachable(s)
    ensures s == INIT.(events := Handling(true), opener := Opened, closer := Joining, devLock := Closer,
                       shutdown := true, firstAccepted := true, inFlight := true, asked := true, transferLive := true)
  {
    hide ReaderNext, CloserNext;
    s := AskedReached();
    s := Do(s, EventStep);
    s := Do(s, EventStep);
    s := Do(s, EventStep);
  }

  /** And the transfer can outlive both: it times out before they take effect, and the callback
      submits it again without a look at `shutdown_thread`. */
  lemma LostReached()
    ensures exists s :: Reachable(s) && s.firstAccepted && s.inFlight && Lost(s)
  {
    hide ReaderNext, CloserNext, EventNext;
    var s := BothAsked();
    s := Do(s, TransferEnds(TimedOut));
    s := Do(s, Resubmission(true));
  }
}
