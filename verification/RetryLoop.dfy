/** The retry loop of nanos_wallet::exchange, and when it ends. */
module RetryLoop {
  import opened Bytes
  import opened HidppDevice
  import opened FrameIoApdu
  import opened ReadCounters
  import opened Reassembly

  /** A handle as an exchange finds it, or none. */
  datatype View = Gone | On(script: nat -> HidRead, pos: nat)

  /** How the retry loop ends.  Unfinished is not an end: the last reopening that is known of
      was not enough. */
  datatype Outcome = Returned(reply: Reply) | Raised(error: Error) | Unfinished

  /** `used` counts the reopenings. */
  datatype Retried = Retried(outcome: Outcome, c: Counters, used: nat) {
    function Again(n: nat): Retried {
      this.(used := used + n)
    }
  }

  /** The do-while loop of exchange.  An attempt that fails on a wrong sequence number makes it
      close and reopen the device and try again, with the counters as that attempt left them;
      `later` has what the reopenings yield.  Without a handle the loop gives up: nothing was
      received, and the status stays what it was. */
  function Retry(c: Counters, now: View, later: seq<View>, status0: u16): (r: Retried)
    ensures r.used <= |later|
    decreases |later|
  {
    match now
    case Gone => Retried(Returned(Reply([], status0)), c, 0)
    case On(script, pos) =>
      var e := Receive(c, script, pos);
      match e.result
      case Ok(reply) => Retried(Returned(reply), e.c, 0)
      case Err(WrongSeqno(_, _)) =>
        if later == [] then Retried(Unfinished, e.c, 0)
        else
          var r := Retry(e.c, later[0], later[1..], status0);
          r.Again(1)
      case Err(error) => Retried(Raised(error), e.c, 0)
  }

  /** What a command makes of the end of its exchange; None while it is still retrying. */
  function Finish<T>(o: Outcome, decode: Reply -> Result<T>): Option<Result<T>> {
    match o
    case Returned(reply) => Some(decode(reply))
    case Raised(e) => Some(Err(e))
    case Unfinished => None
  }

  /** The first read on this handle yields a frame with a wrong number. */
  predicate FailsAtOnce(v: View) {
    v.On? && match Inspect(0, v.script(v.pos)) case Raise(WrongSeqno(_, _)) => true case _ => false
  }

  lemma FailedAtOnce(c: Counters, v: View)
    requires FailsAtOnce(v)
    ensures var e := Receive(c, v.script, v.pos);
      e.result.Err? && e.result.error.WrongSeqno? && e.c == c.(cseq := 0)
  {
  }

  /** One turn of the loop. */
  lemma RetryOnce(c: Counters, now: View, later: seq<View>, status0: u16)
    requires now.On?
    ensures var e := Receive(c, now.script, now.pos);
      && (e.result.Ok? ==> Retry(c, now, later, status0) == Retried(Returned(e.result.value), e.c, 0))
      && (e.result.Err? && !e.result.error.WrongSeqno? ==>
            Retry(c, now, later, status0) == Retried(Raised(e.result.error), e.c, 0))
      && (e.result.Err? && e.result.error.WrongSeqno? ==>
            Retry(c, now, later, status0)
            == if later == [] then Retried(Unfinished, e.c, 0)
               else Retry(e.c, later[0], later[1..], status0).Again(1))
  {
  }

  /** The same after `k` turns. */
  lemma RetryTurn(c: Counters, now: View, later: seq<View>, status0: u16, k: nat)
    requires now.On?
    ensures var e := Receive(c, now.script, now.pos);
      var all := Retry(c, now, later, status0).Again(k);
      match e.result
      case Ok(reply) => all == Retried(Returned(reply), e.c, k)
      case Err(WrongSeqno(_, _)) =>
        if later == [] then all == Retried(Unfinished, e.c, k)
        else all == Retry(e.c, later[0], later[1..], status0).Again(k + 1)
      case Err(error) => all == Retried(Raised(error), e.c, k)
  {
    hide Retry, Receive;
    RetryOnce(c, now, later, status0);
  }

  lemma RetryGone(c: Counters, later: seq<View>, status0: u16, k: nat)
    ensures Retry(c, Gone, later, status0).Again(k) == Retried(Returned(Reply([], status0)), c, k)
  {
  }

  lemma AgainNone(r: Retried)
    ensures r.Again(0) == r
  {
  }

  /** An attempt on this handle, from these counters, meets a frame with a wrong number before it
      has read enough. */
  ghost predicate WrongNumber(c: Counters, v: View) {
    v.On? && exists n: nat :: FailsAt(c, v.script, v.pos, n)
  }

  lemma WrongNumberIs(c: Counters, v: View)
    ensures WrongNumber(c, v) <==> v.On? && RaisesWrong(Receive(c, v.script, v.pos).result)
  {
    hide Receive, FailsAt;
    if v.On? {
      FailsIff(c, v.script, v.pos);
    }
  }

  /** The counters after attempts on these handles, one after the other. */
  function CountersAt(c: Counters, tried: seq<View>): Counters
    decreases |tried|
  {
    if tried == [] then c
    else CountersAt(if tried[0].On? then Receive(c, tried[0].script, tried[0].pos).c else c, tried[1..])
  }

  /** Each of the first `n` attempts meets a wrong number. */
  ghost predicate Wrong(c: Counters, attempts: seq<View>, n: nat)
    requires n <= |attempts|
  {
    forall i :: 0 <= i < n ==> WrongNumber(CountersAt(c, attempts[..i]), attempts[i])
  }

  /** The first attempt apart. */
  lemma WrongFirst(c: Counters, now: View, later: seq<View>, n: nat)
    requires 0 < n <= 1 + |later|
    ensures CountersAt(c, ([now] + later)[..n])
         == CountersAt(if now.On? then Receive(c, now.script, now.pos).c else c, later[..n - 1])
    ensures Wrong(c, [now] + later, n)
            <==> WrongNumber(c, now)
                 && Wrong(if now.On? then Receive(c, now.script, now.pos).c else c, later, n - 1)
  {
    hide Receive, WrongNumber;
    var attempts := [now] + later;
    var c' := if now.On? then Receive(c, now.script, now.pos).c else c;
    forall i: nat | i < n ensures CountersAt(c, attempts[..i + 1]) == CountersAt(c', later[..i]) {
      assert attempts[..i + 1][1..] == later[..i];
    }
    assert CountersAt(c, attempts[..n - 1 + 1]) == CountersAt(c', later[..n - 1]);
    if Wrong(c, attempts, n) {
      assert attempts[..0] == [];
      forall i | 0 <= i < n - 1 ensures WrongNumber(CountersAt(c', later[..i]), later[i]) {
        assert WrongNumber(CountersAt(c, attempts[..i + 1]), attempts[i + 1]);
      }
    }
    if WrongNumber(c, now) && Wrong(c', later, n - 1) {
      forall i | 0 <= i < n ensures WrongNumber(CountersAt(c, attempts[..i]), attempts[i]) {
        if i > 0 {
          assert WrongNumber(CountersAt(c', later[..i - 1]), later[i - 1]);
          assert CountersAt(c, attempts[..i - 1 + 1]) == CountersAt(c', later[..i - 1]);
        }
      }
    }
  }

  /** The loop goes through the attempts that meet a wrong number: its outcome is that of starting
      on the next handle, with the counters as these attempts left them. */
  lemma {:induction false} RetrySkips(c: Counters, now: View, later: seq<View>, n: nat, status0: u16)
    requires n <= |later| && Wrong(c, [now] + later, n)
    ensures Retry(c, now, later, status0)
         == Retry(CountersAt(c, ([now] + later)[..n]), ([now] + later)[n], later[n..], status0).Again(n)
    decreases n
  {
    hide Receive, WrongNumber, Wrong;
    assert ([now] + later)[..0] == [];
    if n > 0 {
      WrongFirst(c, now, later, n);
      WrongNumberIs(c, now);
      RetryOnce(c, now, later, status0);
      assert later == [later[0]] + later[1..];
      assert later[1..][n - 1..] == later[n..];
      RetrySkips(Receive(c, now.script, now.pos).c, later[0], later[1..], n - 1, status0);
    }
  }

  /** And it stops at the first one that does not: `used` attempts meet a wrong number, and the
      outcome is that of the next one alone. */
  lemma {:induction false} RetryStops(c: Counters, now: View, later: seq<View>, status0: u16)
    ensures var r := Retry(c, now, later, status0);
      var attempts := [now] + later;
      var last := Retry(CountersAt(c, attempts[..r.used]), attempts[r.used], [], status0);
      && Wrong(c, attempts, r.used)
      && r == last.Again(r.used)
      && (r.outcome.Unfinished? <==> Wrong(c, attempts, |attempts|))
    decreases |later|
  {
    hide Receive, WrongNumber, Wrong;
    assert ([now] + later)[..0] == [];
    WrongNone(c, [now] + later);
    WrongFirst(c, now, later, 1 + |later|);
    WrongNumberIs(c, now);
    if WrongNumber(c, now) {
      RetryOnce(c, now, later, status0);
      RetryOnce(c, now, [], status0);
      var c' := Receive(c, now.script, now.pos).c;
      if later == [] {
        WrongNone(c', later);
      } else {
        assert later == [later[0]] + later[1..];
        RetryStops(c', later[0], later[1..], status0);
        WrongFirst(c, now, later, Retry(c', later[0], later[1..], status0).used + 1);
      }
    } else {
      NoRetry(c, now, later, status0);
    }
  }

  lemma WrongNone(c: Counters, attempts: seq<View>)
    ensures Wrong(c, attempts, 0)
  {
  }

  lemma NoRetry(c: Counters, now: View, later: seq<View>, status0: u16)
    requires !(now.On? && RaisesWrong(Receive(c, now.script, now.pos).result))
    ensures var r := Retry(c, now, later, status0);
      r == Retry(c, now, [], status0) && r.used == 0 && !r.outcome.Unfinished?
  {
    hide Receive;
  }

  /** The loop is still retrying after these reopenings exactly if every attempt was on a handle
      and met a wrong number. */
  lemma UnfinishedIff(c: Counters, now: View, later: seq<View>, status0: u16)
    ensures Retry(c, now, later, status0).outcome == Unfinished <==> Wrong(c, [now] + later, 1 + |later|)
  {
    hide Retry, Wrong;
    RetryStops(c, now, later, status0);
  }

  /** The first `n` of infinitely many handles. */
  function Tried(handles: nat -> View, n: nat): (tried: seq<View>)
    ensures |tried| == n && forall i :: 0 <= i < n ==> tried[i] == handles(i)
  {
    seq(n, i requires 0 <= i => handles(i))
  }

  /** The loop on the first of these handles, where reopening yields the others, as far as the
      first `n` reopenings tell. */
  function RetryAmong(c: Counters, handles: nat -> View, n: nat, status0: u16): Retried {
    Retry(c, handles(0), Tried(handles, n + 1)[1..], status0)
  }

  /** Some number of reopenings is enough. */
  ghost predicate Ends(c: Counters, handles: nat -> View, status0: u16) {
    exists n: nat :: !RetryAmong(c, handles, n, status0).outcome.Unfinished?
  }

  /** An attempt may end the loop: it has no handle, or it meets no wrong number. */
  ghost predicate Settles(c: Counters, handles: nat -> View, k: nat) {
    !WrongNumber(CountersAt(c, Tried(handles, k)), handles(k))
  }

  /** The loop ends exactly if some attempt has no handle or meets no wrong number. */
  lemma EndsIff(c: Counters, handles: nat -> View, status0: u16)
    ensures Ends(c, handles, status0) <==> exists k: nat :: Settles(c, handles, k)
  {
    hide Retry, WrongNumber, CountersAt;
    forall n: nat
      ensures RetryAmong(c, handles, n, status0).outcome.Unfinished?
              <==> forall k: nat :: k <= n ==> !Settles(c, handles, k)
    {
      var tried := Tried(handles, n + 1);
      assert [handles(0)] + tried[1..] == tried;
      UnfinishedIff(c, handles(0), tried[1..], status0);
      WrongTried(c, handles, n + 1);
    }
    if k: nat :| Settles(c, handles, k) {
      assert !RetryAmong(c, handles, k, status0).outcome.Unfinished?;
    }
  }

  lemma WrongTried(c: Counters, handles: nat -> View, n: nat)
    ensures Wrong(c, Tried(handles, n), n) <==> forall k: nat :: k < n ==> !Settles(c, handles, k)
  {
    hide WrongNumber, CountersAt;
    var tried := Tried(handles, n);
    forall k: nat | k < n ensures tried[..k] == Tried(handles, k) && tried[k] == handles(k) {
    }
    if forall k: nat :: k < n ==> !Settles(c, handles, k) {
      forall k | 0 <= k < n ensures WrongNumber(CountersAt(c, tried[..k]), tried[k]) {
        assert !Settles(c, handles, k);
      }
    }
  }

  /** How many of these handles do not fail on the first read. */
  function Late(tried: seq<View>): nat {
    if tried == [] then 0
    else Late(tried[..|tried| - 1]) + if FailsAtOnce(tried[|tried| - 1]) then 0 else 1
  }

  lemma AttemptGrows(c: Counters, v: View)
    requires WrongNumber(c, v)
    ensures v.On?
    ensures var c' := Receive(c, v.script, v.pos).c;
      if FailsAtOnce(v) then c' == c.(cseq := 0) else c.rn + 5 <= c'.rn < 0xFFFF
  {
    hide Receive, FailsAt, Inspect;
    WrongNumberIs(c, v);
    if FailsAtOnce(v) {
      FailedAtOnce(c, v);
    } else {
      var n := FailureMet(c, v.script, v.pos);
      LateFailure(c, v, n);
    }
  }

  lemma LateFailure(c: Counters, v: View, n: nat)
    requires v.On? && FailsAt(c, v.script, v.pos, n) && !FailsAtOnce(v)
    ensures c.rn + 5 <= Advanced(c.(cseq := 0), v.script, v.pos, n).rn < 0xFFFF
  {
    StepFails(Start(c, v.pos), v.script);
    assert Full(v.script, v.pos, 0) == 0;
    assert n > 0;
  }

  lemma CountersLast(c: Counters, tried: seq<View>, v: View)
    ensures CountersAt(c, tried + [v])
         == var b := CountersAt(c, tried); if v.On? then Receive(b, v.script, v.pos).c else b
    decreases |tried|
  {
    hide Receive;
    if tried == [] {
      assert (tried + [v])[1..] == [];
    } else {
      assert (tried + [v])[1..] == tried[1..] + [v];
      CountersLast(if tried[0].On? then Receive(c, tried[0].script, tried[0].pos).c else c, tried[1..], v);
    }
  }

  /** Attempts that fail after their first read cannot go on for ever, because `rn` is never
      cleared between attempts: at most 13106 of them retry. */
  lemma {:induction false} LateFailuresBounded(c: Counters, attempts: seq<View>)
    requires Wrong(c, attempts, |attempts|)
    ensures Late(attempts) <= 13106
    ensures CountersAt(c, attempts).rn >= c.rn + 5 * Late(attempts)
    ensures Late(attempts) > 0 ==> CountersAt(c, attempts).rn < 0xFFFF
    decreases |attempts|
  {
    hide Receive, FailsAtOnce, WrongNumber;
    if attempts != [] {
      var n := |attempts| - 1;
      var before, v := attempts[..n], attempts[n];
      forall i | 0 <= i < n ensures WrongNumber(CountersAt(c, before[..i]), before[i]) {
        assert before[..i] == attempts[..i];
      }
      LateFailuresBounded(c, before);
      AttemptGrows(CountersAt(c, before), v);
      CountersLast(c, before, v);
      assert attempts == before + [v];
    }
  }

  /** So the loop ends unless all handles but 13106 fail on their first read. */
  lemma EndsWhenLate(c: Counters, handles: nat -> View, n: nat, status0: u16)
    requires Late(Tried(handles, n)) > 13106
    ensures Ends(c, handles, status0)
  {
    hide Late, Wrong, CountersAt, WrongNumber;
    EndsIff(c, handles, status0);
    if !Ends(c, handles, status0) {
      WrongTried(c, handles, n);
      LateFailuresBounded(c, Tried(handles, n));
    }
  }

  /** All attempts but the last fail on their first frame: the first one on `now`, the others on
      what the reopenings yield. */
  ghost predicate FailBefore(now: View, later: seq<View>, n: nat) {
    n <= |later| && forall i :: 0 <= i < n ==> FailsAtOnce(([now] + later)[i])
  }

  lemma AtOnceWrong(c: Counters, v: View)
    requires FailsAtOnce(v)
    ensures WrongNumber(c, v) && Receive(c, v.script, v.pos).c == c.(cseq := 0)
  {
    FailedAtOnce(c, v);
    WrongNumberIs(c, v);
  }

  /** Such attempts retry whatever the counters are, and change nothing but `m_seq`. */
  lemma {:induction false} AtOnce(c: Counters, attempts: seq<View>, n: nat)
    requires n <= |attempts| && forall i :: 0 <= i < n ==> FailsAtOnce(attempts[i])
    ensures Wrong(c, attempts, n)
    ensures CountersAt(c, attempts[..n]) == if n == 0 then c else c.(cseq := 0)
    decreases n
  {
    hide Receive, FailsAtOnce, WrongNumber;
    if n > 0 {
      var now, later := attempts[0], attempts[1..];
      assert attempts == [now] + later;
      AtOnceWrong(c, now);
      AtOnce(c.(cseq := 0), later, n - 1);
      WrongFirst(c, now, later, n);
    }
  }

  /** They are transparent: the caller gets exactly what one exchange on the last handle alone
      would have given. */
  lemma RetryTransparent(c: Counters, now: View, later: seq<View>, n: nat, status0: u16)
    requires FailBefore(now, later, n)
    ensures Retry(c, now, later, status0)
         == Retry(if n == 0 then c else c.(cseq := 0), ([now] + later)[n], later[n..], status0).Again(n)
  {
    hide Retry, Wrong, FailsAtOnce;
    AtOnce(c, [now] + later, n);
    RetrySkips(c, now, later, n, status0);
  }

  /** In particular, from clean counters the reply is that of a fresh exchange on the last handle,
      and the counters end up clean. */
  lemma RetryGivesFreshReply(now: View, later: seq<View>, n: nat, status0: u16)
    requires FailBefore(now, later, n) && ([now] + later)[n].On?
    requires var last := ([now] + later)[n]; Receive(CLEAN, last.script, last.pos).result.Ok?
    ensures var last := ([now] + later)[n];
      Retry(CLEAN, now, later, status0)
      == Retried(Returned(Receive(CLEAN, last.script, last.pos).result.value), CLEAN, n)
  {
    hide FailsAtOnce;
    RetryTransparent(CLEAN, now, later, n, status0);
  }

  /** If every handle fails on its first frame, no number of reopenings is enough. */
  lemma RetriesForEver(c: Counters, now: View, later: seq<View>, status0: u16)
    requires FailsAtOnce(now) && forall i :: 0 <= i < |later| ==> FailsAtOnce(later[i])
    ensures Retry(c, now, later, status0) == Retried(Unfinished, c.(cseq := 0), |later|)
  {
    hide Receive, FailsAtOnce;
    RetryTransparent(c, now, later, |later|, status0);
    var c', last := if later == [] then c else c.(cseq := 0), ([now] + later)[|later|];
    AtOnceWrong(c', last);
    WrongNumberIs(c', last);
    assert later[|later|..] == [];
  }

  /** A device that sends frame number 1 all the time. */
  function Stale(): nat -> HidRead {
    (k: nat) => GoodRead(1, Zeros(59))
  }

  function Always(v: View): nat -> View {
    (k: nat) => v
  }

  lemma StaleFails()
    ensures FailsAtOnce(On(Stale(), 0))
  {
    LeftoverRejected(1, Zeros(59));
  }

  /** With such a device the loop does not end. */
  lemma StaleNeverEnds(c: Counters, status0: u16)
    ensures !Ends(c, Always(On(Stale(), 0)), status0)
  {
    hide Retry, FailsAtOnce, Stale;
    StaleFails();
    var v := On(Stale(), 0);
    forall n: nat
      ensures RetryAmong(c, Always(v), n, status0).outcome.Unfinished?
    {
      RetriesForEver(c, v, Tried(Always(v), n + 1)[1..], status0);
    }
  }

  /** A device that announces 198 bytes in frame number 0, and sends that frame all the time. */
  function Stuck(): nat -> HidRead {
    (k: nat) => GoodRead(0, U16Bytes(198) + Zeros(57))
  }

  lemma StuckFails(c: Counters)
    ensures !FailsAtOnce(On(Stuck(), 0))
    ensures RaisesWrong(Receive(c, Stuck(), 0).result) <==> c.rn + 64 < 200
    ensures c.rn + 64 < 200 ==> Receive(c, Stuck(), 0).c.rn == c.rn + 64
  {
    hide Receive;
    var script := Stuck();
    var block := script(0).block;
    assert block[..3] == [0x01, 0x01, 0x05] && block[3] == block[4] == 0 && block[5] == 0 && block[6] == 198;
    assert Full(script, 0, 0) == 0;
    assert Full(script, 0, 1) == 1;
    assert InOrderAt(script, 0, 0, 0) && !InOrderAt(script, 0, 1, 0);
    assert FailsAt(c, script, 0, 1) <==> c.rn + 64 < 200;
    assert forall n: nat :: FailsAt(c, script, 0, n) ==> n == 1;
    FailsIff(c, script, 0);
    if c.rn + 64 < 200 {
      var n := FailureMet(c, script, 0);
    }
  }

  /** That one fails after its first frame.  Three attempts retry; then `rn` is past the announced
      length, and the fourth attempt ends the loop. */
  lemma StuckEnds(status0: u16)
    ensures var v := On(Stuck(), 0);
      var r := Retry(CLEAN, v, [v, v, v], status0);
      !FailsAtOnce(v) && r.used == 3 && !r.outcome.Unfinished?
  {
    hide Receive, Retry, Stuck, FailsAtOnce;
    var v := On(Stuck(), 0);
    var c1 := Receive(CLEAN, Stuck(), 0).c;
    var c2 := Receive(c1, Stuck(), 0).c;
    var c3 := Receive(c2, Stuck(), 0).c;
    StuckFails(CLEAN);
    StuckFails(c1);
    StuckFails(c2);
    StuckFails(c3);
    RetryOnce(CLEAN, v, [v, v, v], status0);
    RetryOnce(c1, v, [v, v], status0);
    RetryOnce(c2, v, [v], status0);
    NoRetry(c3, v, [], status0);
    assert [v, v, v][1..] == [v, v] && [v, v][1..] == [v] && [v][1..] == [];
  }
}
