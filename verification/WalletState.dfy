/** What the operations of nanos_wallet do to `m_valid` and to the device handle, as a state
    machine over whole runs. */
module WalletState {
  import opened Bytes

  datatype Connection = Disconnected | AppNotOpened | PermissionError | AppOpened

  /** `opens` and `closes` count the successful calls of hid_open and the calls of hid_close. */
  datatype WalletState = WalletState(valid: bool, open: bool, opens: nat, closes: nat) {
    /** m_valid says whether the handle is open, and no other handle is. */
    predicate Consistent() {
      valid == open && opens == closes + if open then 1 else 0
    }

    function CloseHandle(): WalletState {
      if open then WalletState(valid, false, opens, closes + 1) else this
    }

    function Close(): WalletState {
      CloseHandle().(valid := false)
    }

    /** A new framer is assigned over the old one, which is not closed; then it is opened. */
    function Open(ok: bool): WalletState {
      if ok then WalletState(true, true, opens + 1, closes) else this.(open := false)
    }

    function InitExt(app: bool, root: bool, ok: bool): (WalletState, Connection) {
      if valid && app then (this, AppOpened)
      else
        var s := if valid then Close() else this;
        if root then (s, AppNotOpened)
        else if !app then (s, Disconnected)
        else (s.Open(ok), if ok then AppOpened else PermissionError)
    }

    function InitExtRoot(root: bool, ok: bool): (WalletState, Connection) {
      if valid && root then (this, AppNotOpened)
      else
        var s := if valid then Close() else this;
        if !root then (s, Disconnected)
        else (s.Open(ok), if ok then AppNotOpened else PermissionError)
    }

    function Init(app: bool, root: bool, ok: bool): (WalletState, bool) {
      if root || !app then (this, false) else (Open(ok), ok)
    }

    function InitRoot(root: bool, ok: bool): (WalletState, bool) {
      if !root then (this, false) else (Open(ok), ok)
    }

    /** The retry loop closes the device and opens it again. */
    function Reopen(ok: bool): WalletState {
      var s := CloseHandle();
      if ok then WalletState(s.valid, true, s.opens + 1, s.closes) else s
    }

    /** The retry loop: one entry of `reopens` for each attempt that failed on a wrong sequence
        number, saying whether opening worked afterwards. */
    function Retry(reopens: seq<bool>): WalletState
      decreases |reopens|
    {
      if reopens == [] then this
      else
        var s := Reopen(reopens[0]);
        if reopens[0] then s.Retry(reopens[1..]) else s.(valid := false)
    }

    /** Without a handle the loop gives up at once. */
    function Exchange(reopens: seq<bool>): WalletState {
      if !valid then this else if open then Retry(reopens) else this.(valid := false)
    }
  }

  const NEW_WALLET := WalletState(false, false, 0, 0)

  /** An operation with what the system answered to it. */
  datatype Operation =
    | DoInitExt(app: bool, root: bool, ok: bool)
    | DoInitExtRoot(root: bool, ok: bool)
    | DoReopenWithApp(app: bool, root: bool, ok: bool)
    | DoInit(app: bool, root: bool, ok: bool)
    | DoInitRoot(root: bool, ok: bool)
    | DoExchange(reopens: seq<bool>)
    | DoClose

  function Perform(s: WalletState, op: Operation): WalletState {
    match op
    case DoInitExt(app, root, ok) => s.InitExt(app, root, ok).0
    case DoInitExtRoot(root, ok) => s.InitExtRoot(root, ok).0
    case DoReopenWithApp(app, root, ok) => s.Close().InitExt(app, root, ok).0
    case DoInit(app, root, ok) => s.Init(app, root, ok).0
    case DoInitRoot(root, ok) => s.InitRoot(root, ok).0
    case DoExchange(reopens) => s.Exchange(reopens)
    case DoClose => s.Close()
  }

  /** init and init_root are for a wallet that is not valid. */
  predicate Allowed(s: WalletState, op: Operation) {
    op.DoInit? || op.DoInitRoot? ==> !s.valid
  }

  function Run(ops: seq<Operation>): WalletState {
    if ops == [] then NEW_WALLET else Perform(Run(ops[..|ops| - 1]), ops[|ops| - 1])
  }

  predicate AllAllowed(ops: seq<Operation>) {
    forall i :: 0 <= i < |ops| ==> Allowed(Run(ops[..i]), ops[i])
  }

  lemma {:induction false} RetryConsistent(s: WalletState, reopens: seq<bool>)
    requires s.Consistent() && s.valid
    ensures s.Retry(reopens).Consistent()
    decreases |reopens|
  {
    if reopens != [] && reopens[0] {
      RetryConsistent(s.Reopen(true), reopens[1..]);
    }
  }

  lemma PerformConsistent(s: WalletState, op: Operation)
    requires s.Consistent() && Allowed(s, op)
    ensures Perform(s, op).Consistent()
  {
    if op.DoExchange? && s.valid {
      RetryConsistent(s, op.reopens);
    }
  }

  /** Over every run, between two operations m_valid holds exactly if the handle is open, and
      one handle or none is open accordingly: nothing is closed twice or left open. */
  lemma {:induction false} RunConsistent(ops: seq<Operation>)
    requires AllAllowed(ops)
    ensures Run(ops).Consistent()
  {
    if ops != [] {
      var before := ops[..|ops| - 1];
      forall i | 0 <= i < |before| ensures Allowed(Run(before[..i]), before[i]) {
        assert before[..i] == ops[..i];
      }
      RunConsistent(before);
      PerformConsistent(Run(before), ops[|ops| - 1]);
    }
  }

  /** What the results of the operations tell about the wallet afterwards, and about the
      devices that were found: success means a valid wallet with an open handle, and everything
      else a wallet that is not valid and has none. */
  lemma ResultsTellState(ops: seq<Operation>, app: bool, root: bool, ok: bool)
    requires AllAllowed(ops)
    ensures var (t, r) := Run(ops).InitExt(app, root, ok);
      t.valid == t.open == (r == AppOpened) && (r == Disconnected <==> !app && !root)
    ensures var (t, r) := Run(ops).InitExtRoot(root, ok);
      t.valid == t.open == (r == AppNotOpened) && (r == Disconnected <==> !root)
    ensures var (t, r) := Run(ops).Close().InitExt(app, root, ok);
      && t.valid == t.open == (r == AppOpened)
      && (r == AppNotOpened <==> root) && (r == Disconnected <==> !app && !root)
    ensures !Run(ops).valid ==>
      && (var (t, r) := Run(ops).Init(app, root, ok); t.valid == t.open == r)
      && (var (t, r) := Run(ops).InitRoot(root, ok); t.valid == t.open == r)
  {
    RunConsistent(ops);
  }

  /** What an operation that opens does, by what is found and whether opening works: which result
      it has, and what it opens and closes. */
  lemma InitExtOpens(ops: seq<Operation>, app: bool, root: bool, ok: bool)
    requires AllAllowed(ops)
    ensures var s := Run(ops);
      var (t, r) := s.InitExt(app, root, ok);
      var kept, opens := s.valid && app, app && !root && ok;
      && (r == AppOpened <==> kept || opens)
      && (r == AppNotOpened <==> root && !kept)
      && (r == PermissionError <==> app && !root && !s.valid && !ok)
      && (r == Disconnected <==> !app && !root)
      && (kept ==> t == s)
      && (!kept ==>
            && t.opens == s.opens + (if opens then 1 else 0)
            && t.closes == s.closes + (if s.valid then 1 else 0)
            && t.valid == t.open == opens)
  {
    RunConsistent(ops);
  }

  lemma InitExtRootOpens(ops: seq<Operation>, root: bool, ok: bool)
    requires AllAllowed(ops)
    ensures var s := Run(ops);
      var (t, r) := s.InitExtRoot(root, ok);
      var kept, opens := s.valid && root, root && ok;
      && (r == AppNotOpened <==> kept || opens)
      && (r == PermissionError <==> root && !s.valid && !ok)
      && (r == Disconnected <==> !root)
      && (kept ==> t == s)
      && (!kept ==>
            && t.opens == s.opens + (if opens then 1 else 0)
            && t.closes == s.closes + (if s.valid then 1 else 0)
            && t.valid == t.open == opens)
  {
    RunConsistent(ops);
  }

  lemma ReopenWithAppOpens(ops: seq<Operation>, app: bool, root: bool, ok: bool)
    requires AllAllowed(ops)
    ensures var s := Run(ops);
      var (t, r) := s.Close().InitExt(app, root, ok);
      var opens := app && !root && ok;
      && (r == AppOpened <==> opens)
      && (r == AppNotOpened <==> root)
      && (r == PermissionError <==> app && !root && !ok)
      && (r == Disconnected <==> !app && !root)
      && t.opens == s.opens + (if opens then 1 else 0)
      && t.closes == s.closes + (if s.valid then 1 else 0)
      && t.valid == t.open == opens
  {
    RunConsistent(ops);
  }

  /** init and init_root close nothing, whatever the wallet was. */
  lemma InitOpens(s: WalletState, app: bool, root: bool, ok: bool)
    ensures var (t, r) := s.Init(app, root, ok);
      && (r <==> app && !root && ok)
      && t.opens == s.opens + (if r then 1 else 0) && t.closes == s.closes
      && (r ==> t.valid && t.open)
      && (root || !app ==> t == s)
      && (!root && app && !ok ==> !t.open && t.valid == s.valid)
    ensures var (t, r) := s.InitRoot(root, ok);
      && (r <==> root && ok)
      && t.opens == s.opens + (if r then 1 else 0) && t.closes == s.closes
      && (r ==> t.valid && t.open)
      && (!root ==> t == s)
      && (root && !ok ==> !t.open && t.valid == s.valid)
  {
  }

  /** What an exchange and a closing do: each reopening closes the handle and opens one, the first
      one that does not work ends the exchange and invalidates the wallet. */
  lemma {:induction false} RetryOpens(s: WalletState, reopens: seq<bool>, k: nat)
    requires s.valid && s.open
    requires k <= |reopens| && (forall i :: 0 <= i < k ==> reopens[i]) && (k < |reopens| ==> !reopens[k])
    ensures var t := s.Retry(reopens);
      && t.valid == t.open == (k == |reopens|)
      && t.opens == s.opens + k
      && t.closes == s.closes + (if k == |reopens| then k else k + 1)
    decreases k
  {
    if k > 0 {
      RetryOpens(WalletState(true, true, s.opens + 1, s.closes + 1), reopens[1..], k - 1);
    }
  }

  lemma ExchangeOpens(s: WalletState, reopens: seq<bool>, k: nat)
    requires k <= |reopens| && (forall i :: 0 <= i < k ==> reopens[i]) && (k < |reopens| ==> !reopens[k])
    ensures var t := s.Exchange(reopens);
      && (!s.valid ==> t == s)
      && (s.valid && !s.open ==> t == WalletState(false, false, s.opens, s.closes))
      && (s.valid && s.open ==>
            && t.valid == t.open == (k == |reopens|)
            && t.opens == s.opens + k
            && t.closes == s.closes + (if k == |reopens| then k else k + 1))
    ensures s.Close() == WalletState(false, false, s.opens, s.closes + if s.open then 1 else 0)
  {
    if s.valid && s.open {
      RetryOpens(s, reopens, k);
    }
  }

  /** The restriction on init is needed: on a consistent wallet, init and init_root leave it
      consistent for every answer of the system exactly if it is not valid. */
  lemma InitNeedsInvalid(s: WalletState)
    requires s.Consistent()
    ensures (forall app, root, ok ::
               s.Init(app, root, ok).0.Consistent() && s.InitRoot(root, ok).0.Consistent()) <==> !s.valid
  {
    if s.valid {
      assert !s.Init(true, false, true).0.Consistent();
    }
  }
}
