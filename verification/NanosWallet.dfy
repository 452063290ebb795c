/** nanos_wallet: opening and closing, the exchange with its retry loop, and the commands. */
module NanosWallet {
  import opened Bytes
  import opened HidppDevice
  import opened FrameIo
  import opened FrameIoApdu
  import opened WalletState
  import opened AppList
  import opened Commands
  import opened RetryLoop

  const LEDGER_VID: u16 := 0x2c97
  const NANOS_PID: u16 := 0x0001
  const NANOS_PID_ROOT: u16 := 0x1011

  function Repeated(request: Request, n: nat): (s: seq<Request>)
    ensures |s| == n && forall i :: 0 <= i < n ==> s[i] == request
  {
    seq(n, _ => request)
  }

  lemma RepeatedNone(before: seq<Request>, request: Request)
    ensures before + Repeated(request, 0) == before
  {
  }

  lemma RepeatedNext(before: seq<Request>, request: Request, n: nat)
    ensures before + Repeated(request, n + 1) == before + Repeated(request, n) + [request]
  {
  }

  /** Whether each used reopening gave a handle. */
  function Reopened(later: seq<HidHandle?>, used: nat): (b: seq<bool>)
    requires used <= |later|
    ensures |b| == used
  {
    if used == 0 then [] else [later[0] != null] + Reopened(later[1..], used - 1)
  }

  function ViewOf(h: HidHandle?): View
    reads h
  {
    if h == null then Gone else On(h.script, h.pos)
  }

  function Views(later: seq<HidHandle?>): (v: seq<View>)
    reads set h | h in later
    ensures |v| == |later|
  {
    if later == [] then [] else [ViewOf(later[0])] + Views(later[1..])
  }

  lemma {:induction false} ViewAt(later: seq<HidHandle?>, k: nat)
    requires k < |later|
    ensures Views(later)[k] == ViewOf(later[k])
  {
    if k > 0 {
      ViewAt(later[1..], k - 1);
    }
  }

  lemma {:induction false} ReopenedNext(later: seq<HidHandle?>, k: nat)
    requires k < |later|
    ensures Reopened(later, k + 1) == Reopened(later, k) + [later[k] != null]
  {
    if k > 0 {
      ReopenedNext(later[1..], k - 1);
    }
  }

  lemma {:induction false} RetryNext(s: WalletState, reopens: seq<bool>, next: bool)
    requires s.open && s.Retry(reopens).open
    ensures s.Retry(reopens + [next])
         == var t := s.Retry(reopens).Reopen(next); if next then t else t.(valid := false)
    decreases |reopens|
  {
    if reopens != [] {
      assert (reopens + [next])[1..] == reopens[1..] + [next];
      RetryNext(s.Reopen(true), reopens[1..], next);
    } else {
      assert reopens + [next] == [next];
    }
  }

  lemma RetryNone(s: WalletState, later: seq<HidHandle?>)
    ensures s.Retry(Reopened(later, 0)) == s
  {
  }

  /** The handles that reopening may yield are new ones. */
  ghost predicate NewHandles(later: seq<HidHandle?>, live: set<HidHandle>) {
    && (forall i, j :: 0 <= i < j < |later| && later[i] != null ==> later[i] != later[j])
    && (forall i :: 0 <= i < |later| ==> later[i] !in live)
  }

  class NanosWallet {
    const api: Hidapi
    const framer: FrameIoApdu
    var valid: bool

    constructor (api: Hidapi)
      ensures Valid() && State() == NEW_WALLET.(opens := api.opens, closes := api.closes)
      ensures this.api == api && fresh(framer) && fresh(framer.io) && fresh(framer.frame)
      ensures framer.io.vendorId == 0x2c97 && framer.io.productId == 0x0001 && framer.Count() == CLEAN
    {
      this.api := api;
      var dev := new HidppDevice(LEDGER_VID, NANOS_PID);
      framer := new FrameIoApdu(dev);
      valid := false;
    }

    ghost predicate Valid()
      reads this, framer, framer.frame, framer.io, api
    {
      && framer.Valid()
      && (framer.io.dev != null ==> framer.io.dev in api.live)
    }

    function State(): WalletState
      reads this, framer, framer.io, api
    {
      WalletState(valid, framer.io.IsOpen(), api.opens, api.closes)
    }

    method Close()
      requires Valid()
      modifies this, framer.io, api
      ensures Valid() && State() == old(State()).Close() && framer.io.dev == null
      ensures api.live <= old(api.live) && api.requests == old(api.requests)
      ensures framer.Count() == old(framer.Count())
    {
      if framer.io.IsOpen() {
        framer.io.Close(api);
      }
      valid := false;
    }

    /** The end of all the operations that open the device. */
    method Open(vendorId: u16, productId: u16, result: HidHandle?) returns (ok: bool)
      requires Valid() && result !in api.live
      modifies this, framer, framer.frame, framer.io, api
      ensures Valid() && State() == old(State()).Open(result != null)
      ensures ok == (result != null) && framer.io.dev == result && framer.Count() == CLEAN
      ensures framer.io.vendorId == vendorId && framer.io.productId == productId
      ensures api.requests == old(api.requests) + [RequestFor(vendorId, productId)]
    {
      var dev := new HidppDevice(vendorId, productId);
      framer.Assign(dev);
      ok := framer.io.Open(api, result);
      if ok {
        valid := framer.io.IsOpen();
      }
    }

    /** The enumerations and the result of opening are the system's answers. */
    method InitExt(productId: u16, appDevs: seq<(u16, u16)>, systemDevs: seq<(u16, u16)>, result: HidHandle?)
      returns (r: Connection)
      requires Valid() && result !in api.live
      modifies this, framer, framer.frame, framer.io, api
      ensures Valid()
      ensures (State(), r) == old(State()).InitExt(appDevs != [], systemDevs != [], result != null)
      ensures api.requests == old(api.requests)
        + if appDevs != [] && systemDevs == [] && !old(valid) then [RequestFor(appDevs[0].0, appDevs[0].1)] else []
    {
      if valid && appDevs != [] {
        return AppOpened;
      }
      if valid {
        if framer.io.IsOpen() {
          framer.io.Close(api);
        }
        valid := false;
      }
      if systemDevs == [] && appDevs == [] {
        return Disconnected;
      }
      if systemDevs != [] {
        return AppNotOpened;
      }
      var ok := Open(appDevs[0].0, appDevs[0].1, result);
      r := if ok then AppOpened else PermissionError;
    }

    method ReopenWithApp(productId: u16, appDevs: seq<(u16, u16)>, systemDevs: seq<(u16, u16)>, result: HidHandle?)
      returns (r: Connection)
      requires Valid() && result !in api.live
      modifies this, framer, framer.frame, framer.io, api
      ensures Valid()
      ensures (State(), r) == old(State()).Close().InitExt(appDevs != [], systemDevs != [], result != null)
      ensures api.requests == old(api.requests)
        + if appDevs != [] && systemDevs == [] then [RequestFor(appDevs[0].0, appDevs[0].1)] else []
    {
      Close();
      r := InitExt(productId, appDevs, systemDevs, result);
    }

    method InitExtRoot(systemDevs: seq<(u16, u16)>, result: HidHandle?) returns (r: Connection)
      requires Valid() && result !in api.live
      modifies this, framer, framer.frame, framer.io, api
      ensures Valid()
      ensures (State(), r) == old(State()).InitExtRoot(systemDevs != [], result != null)
      ensures api.requests == old(api.requests)
        + if systemDevs != [] && !old(valid) then [HidOpen(0x2c97, 0x1011)] else []
    {
      if valid && systemDevs != [] {
        return AppNotOpened;
      }
      if valid {
        Close();
      }
      if systemDevs == [] {
        return Disconnected;
      }
      var ok := Open(LEDGER_VID, NANOS_PID_ROOT, result);
      r := if ok then AppNotOpened else PermissionError;
    }

    method Init(productId: u16, appDevs: seq<(u16, u16)>, systemDevs: seq<(u16, u16)>, result: HidHandle?)
      returns (r: bool)
      requires Valid() && result !in api.live
      modifies this, framer, framer.frame, framer.io, api
      ensures Valid()
      ensures (State(), r) == old(State()).Init(appDevs != [], systemDevs != [], result != null)
      ensures api.requests == old(api.requests)
        + if appDevs != [] && systemDevs == [] then [RequestFor(appDevs[0].0, productId)] else []
    {
      if systemDevs == [] && appDevs == [] {
        return false;
      }
      if systemDevs != [] {
        return false;
      }
      var ok := Open(appDevs[0].0, productId, result);
      r := ok && valid;
    }

    method InitRoot(systemDevs: seq<(u16, u16)>, result: HidHandle?) returns (r: bool)
      requires Valid() && result !in api.live
      modifies this, framer, framer.frame, framer.io, api
      ensures Valid()
      ensures (State(), r) == old(State()).InitRoot(systemDevs != [], result != null)
      ensures api.requests == old(api.requests)
        + if systemDevs != [] then [RequestFor(systemDevs[0].0, systemDevs[0].1)] else []
    {
      if systemDevs == [] {
        return false;
      }
      var ok := Open(systemDevs[0].0, systemDevs[0].1, result);
      r := ok && valid;
    }

    /** One failed attempt: the device is closed and opened again. */
    method Reopen(result: HidHandle?)
      requires Valid() && framer.io.dev != null && result !in api.live
      modifies framer.io`dev, api
      ensures api.requests == old(api.requests) + [RequestFor(framer.io.vendorId, framer.io.productId)]
      ensures Valid() && framer.io.dev == result && framer.Count() == old(framer.Count())
      ensures api.live == old(api.live) - {old(framer.io.dev)} + if result == null then {} else {result}
      ensures State() == old(State()).Reopen(result != null)
    {
      framer.io.Close(api);
      var _ := framer.io.Open(api, result);
    }

    /** One turn of the loop on an open handle: an attempt, and the reopening if it failed on a
        wrong sequence number and it is known what that yields. */
    method Attempt(a: Apdu, next: Option<HidHandle?>) returns (e: Result<Reply>)
      requires Valid() && framer.io.dev != null
      requires next.Some? ==> next.value !in api.live
      modifies framer, framer.frame, framer.io`dev, framer.io.dev, api
      ensures Valid()
      ensures a.payloadSize > 255 ==>
        e == Err(PayloadTooLarge) && framer.Count() == old(framer.Count())
      ensures a.payloadSize <= 255 ==>
        && old(framer.io.dev).written == old(framer.io.dev.written) + Frames(Message(a), 0)
        && var x := Receive(old(framer.Count()), old(framer.io.dev.script), old(framer.io.dev.pos));
           e == x.result && framer.Count() == x.c
      ensures if next.Some? && e.Err? && e.error.WrongSeqno?
        then
          && framer.io.dev == next.value
          && (forall h :: h in api.live ==> h in old(api.live) || h == next.value)
          && api.requests == old(api.requests) + [RequestFor(framer.io.vendorId, framer.io.productId)]
          && State() == old(State()).Reopen(next.value != null)
        else framer.io.dev == old(framer.io.dev) && State() == old(State()) && api.requests == old(api.requests)
    {
      hide Receive, Frames, Message, RequestFor;
      e := framer.Exchange(a);
      if next.Some? && e.Err? && e.error.WrongSeqno? {
        Reopen(next.value);
      }
    }

    /** Sends a command and retries until it is answered; `reopens` has what hid_open yields
        each time the loop reopens the device.  Every handle that is tried gets the frames of
        the command. */
    method Exchange(a: Apdu, status0: u16, reopens: seq<HidHandle?>) returns (r: Outcome, ghost used: nat)
      requires Valid() && NewHandles(reopens, api.live)
      modifies this, framer, framer.frame, framer.io`dev, framer.io.dev, api, set h | h in reopens
      ensures Valid() && used <= |reopens|
      ensures !old(valid) ==> r == Raised(NotInitialized) && used == 0
      ensures old(valid) && a.payloadSize <= 255 ==>
        Retried(r, framer.Count(), used)
        == Retry(old(framer.Count()), old(ViewOf(framer.io.dev)), old(Views(reopens)), status0)
      ensures old(valid) && a.payloadSize > 255 && old(framer.io.dev) != null ==>
        r == Raised(PayloadTooLarge) && used == 0 && framer.Count() == old(framer.Count())
      ensures old(valid) && a.payloadSize <= 255 && old(framer.io.dev) != null ==>
        && old(framer.io.dev).written == old(framer.io.dev.written) + Frames(Message(a), 0)
        && forall i :: 0 <= i < used && reopens[i] != null ==>
             reopens[i].written == old(reopens[i].written) + Frames(Message(a), 0)
      ensures old(valid) && old(framer.io.dev) == null ==>
        r == Returned(Reply([], status0)) && used == 0
      ensures State() == old(State()).Exchange(Reopened(reopens, used))
      ensures api.requests
        == old(api.requests) + Repeated(RequestFor(framer.io.vendorId, framer.io.productId), used)
    {
      hide Retry, WalletState.Retry, WalletState.Reopen, Receive, Frames, Message, Views, Reopened, RequestFor,
        Repeated, Retried.Again, FrameIoApdu.Valid;
      used := 0;
      RepeatedNone(api.requests, RequestFor(framer.io.vendorId, framer.io.productId));
      if !valid {
        return Raised(NotInitialized), 0;
      }
      ghost var start, all := State(), Retry(framer.Count(), ViewOf(framer.io.dev), Views(reopens), status0);
      ghost var request := RequestFor(framer.io.vendorId, framer.io.productId);
      ghost var now, views := ViewOf(framer.io.dev), Views(reopens);
      forall i | 0 <= i < |reopens| ensures ViewOf(reopens[i]) == views[i] {
        ViewAt(reopens, i);
      }
      RetryNone(start, reopens);
      AgainNone(all);
      var k := 0;
      while true
        invariant Valid() && valid && k <= |reopens|
        invariant framer.io.dev == if k == 0 then old(framer.io.dev) else reopens[k - 1]
        invariant ViewOf(framer.io.dev) == now
        invariant forall i :: k <= i < |reopens| ==> ViewOf(reopens[i]) == views[i]
        invariant forall i :: k <= i < |reopens| ==> reopens[i] !in api.live
        invariant a.payloadSize <= 255 ==> Retry(framer.Count(), now, views[k..], status0).Again(k) == all
        invariant start.Retry(Reopened(reopens, k)) == State().(valid := k == 0 || now.On?)
        invariant api.requests == old(api.requests) + Repeated(request, k)
        invariant k > 0 ==> a.payloadSize <= 255 && old(framer.io.dev) != null
        invariant k == 0 ==> framer.Count() == old(framer.Count())
        invariant k == 0 && framer.io.dev != null ==> framer.io.dev.written == old(framer.io.dev.written)
        invariant k > 0 ==>
          old(framer.io.dev).written == old(framer.io.dev.written) + Frames(Message(a), 0)
        invariant forall i :: 0 <= i < |reopens| && reopens[i] != null ==>
          reopens[i].written
          == if i < k - 1 then old(reopens[i].written) + Frames(Message(a), 0) else old(reopens[i].written)
        decreases |reopens| - k
      {
        used := k;
        if framer.io.dev == null {
          RetryGone(framer.Count(), views[k..], status0, k);
          valid := false;
          r := Returned(Reply([], status0));
          break;
        }
        ghost var c := framer.Count();
        var e := Attempt(a, if k < |reopens| then Some(reopens[k]) else None);
        if a.payloadSize <= 255 {
          RetryTurn(c, now, views[k..], status0, k);
        }
        if e.Ok? {
          r := Returned(e.value);
          break;
        }
        if !e.error.WrongSeqno? {
          r := Raised(e.error);
          break;
        }
        if k == |reopens| {
          r := Unfinished;
          break;
        }
        RetryNext(start, Reopened(reopens, k), reopens[k] != null);
        ReopenedNext(reopens, k);
        RepeatedNext(old(api.requests), request, k);
        now := views[k];
        k := k + 1;
      }
    }

    /** Asks for the address of an index. */
    method GetAddress(index: u32, silent: bool, reopens: seq<HidHandle?>) returns (r: Option<Result<seq<byte>>>)
      requires Valid() && NewHandles(reopens, api.live)
      modifies this, framer, framer.frame, framer.io`dev, framer.io.dev, api, set h | h in reopens
      ensures Valid()
      ensures !old(valid) ==> r == Some(Err(NotInitialized))
      ensures old(valid) ==>
        r == Finish(Retry(old(framer.Count()), old(ViewOf(framer.io.dev)), old(Views(reopens)), CODE_SUCCESS).outcome,
                    DecodeAddress)
      ensures old(valid) && old(framer.io.dev) != null ==>
        old(framer.io.dev).written == old(framer.io.dev.written) + Frames(Message(GetAddressApdu(index, silent)), 0)
    {
      hide Retry, Views, Frames, Message;
      var tmp := U32Bytes(index);
      var data := Apdu(DEVICE_CLASS, CMD_GET_ADDRESS, if silent then 0x01 else 0x00, 0, 4, tmp + Zeros(251));
      var o, _ := Exchange(data, CODE_SUCCESS, reopens);
      if o.Raised? {
        return Some(Err(o.error));
      }
      if o.Unfinished? {
        return None;
      }
      var status, response := o.reply.status, o.reply.data;
      if status != CODE_SUCCESS {
        return Some(Err(ExchangeError(status)));
      }
      if |response| < 20 {
        return Some(Err(OutOfRange));
      }
      r := Some(Ok(response[..20]));
    }

    /** Has a transaction hash signed.  A hash of more than 251 bytes does not fit into the APDU. */
    method SignTx(rawTx: seq<byte>, index: u32, reopens: seq<HidHandle?>) returns (r: Option<Result<Signature>>)
      requires Valid() && NewHandles(reopens, api.live) && |rawTx| <= 251
      modifies this, framer, framer.frame, framer.io`dev, framer.io.dev, api, set h | h in reopens
      ensures Valid()
      ensures !old(valid) ==> r == Some(Err(NotInitialized))
      ensures old(valid) ==>
        r == Finish(Retry(old(framer.Count()), old(ViewOf(framer.io.dev)), old(Views(reopens)), CODE_SUCCESS).outcome,
                    DecodeSignature)
      ensures old(valid) && old(framer.io.dev) != null ==>
        old(framer.io.dev).written == old(framer.io.dev.written) + Frames(Message(SignTxApdu(rawTx, index)), 0)
    {
      hide Retry, Views, Frames, Message;
      var unsignedHash := new BytesData(36);
      var _ := unsignedHash.Write(0, U32Bytes(index));
      var _ := unsignedHash.Write(4, rawTx);
      var payload := unsignedHash.data + Zeros(255 - |unsignedHash.data|);
      var data := Apdu(DEVICE_CLASS, CMD_SIGN_TX, 0, 0, 4 + 32, payload);
      var o, _ := Exchange(data, CODE_SUCCESS, reopens);
      if o.Raised? {
        return Some(Err(o.error));
      }
      if o.Unfinished? {
        return None;
      }
      var status, response := o.reply.status, o.reply.data;
      if status != CODE_SUCCESS {
        return Some(Err(ExchangeError(status)));
      }
      if |response| < 64 {
        return Some(Err(OutOfRange));
      }
      r := Some(Ok(Signature(response[..32], response[32..64], response[|response| - 1..])));
    }

    /** Asks for the version of the app. */
    method GetAppVersion(reopens: seq<HidHandle?>) returns (r: Option<Result<string>>)
      requires Valid() && NewHandles(reopens, api.live)
      modifies this, framer, framer.frame, framer.io`dev, framer.io.dev, api, set h | h in reopens
      ensures Valid()
      ensures !old(valid) ==> r == Some(Err(NotInitialized))
      ensures old(valid) ==>
        r == Finish(Retry(old(framer.Count()), old(ViewOf(framer.io.dev)), old(Views(reopens)), CODE_SUCCESS).outcome,
                    DecodeVersion)
      ensures old(valid) && old(framer.io.dev) != null ==>
        old(framer.io.dev).written == old(framer.io.dev.written) + Frames(Message(GET_VERSION_APDU), 0)
    {
      hide Retry, Views, Frames, Message;
      var data := Apdu(DEVICE_CLASS, CMD_GET_VERSION, 0, 0, 0, Zeros(255));
      var o, _ := Exchange(data, CODE_SUCCESS, reopens);
      if o.Raised? {
        return Some(Err(o.error));
      }
      if o.Unfinished? {
        return None;
      }
      var status, response := o.reply.status, o.reply.data;
      if status != CODE_SUCCESS {
        return Some(Err(ExchangeError(status)));
      }
      if |response| < 3 {
        return Some(Err(OutOfRange));
      }
      r := Some(Ok(VersionString(response[0], response[1], response[2])));
    }

    /** Asks for the installed apps. */
    method GetAppList(reopens: seq<HidHandle?>) returns (r: Option<Result<seq<AppItem>>>)
      requires Valid() && NewHandles(reopens, api.live)
      modifies this, framer, framer.frame, framer.io`dev, framer.io.dev, api, set h | h in reopens
      ensures Valid()
      ensures !old(valid) ==> r == Some(Err(NotInitialized))
      ensures old(valid) ==>
        r == Finish(Retry(old(framer.Count()), old(ViewOf(framer.io.dev)), old(Views(reopens)), CODE_SUCCESS).outcome,
                    DecodeAppList)
      ensures old(valid) && old(framer.io.dev) != null ==>
        old(framer.io.dev).written == old(framer.io.dev.written) + Frames(Message(GET_APP_LIST_APDU), 0)
    {
      hide Retry, Views, Frames, Message;
      var data := Apdu(DEVICE_CLASS, CMD_GET_APP_LIST, 0, 0, 0, Zeros(255));
      var o, _ := Exchange(data, CODE_SUCCESS, reopens);
      if o.Raised? {
        return Some(Err(o.error));
      }
      if o.Unfinished? {
        return None;
      }
      var status, response := o.reply.status, o.reply.data;
      if status != CODE_SUCCESS {
        return Some(Err(ExchangeError(status)));
      }
      var list := ParseAppList(response);
      r := Some(list);
    }
  }
}
