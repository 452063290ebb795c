/** What the commands return through the retry loop. */
module Answers {
  import opened Bytes
  import opened HidppDevice
  import opened FrameIoApdu
  import opened Reassembly
  import opened AppList
  import opened AppListFit
  import opened Commands
  import opened RetryLoop

  /** The response of a command: after attempts that meet wrong numbers, the last handle delivers
      a successful response whose length is in the range for the counters they left. */
  ghost predicate Answered(c: Counters, now: View, later: seq<View>, n: nat, stream: seq<byte>, total: nat) {
    && n <= |later| && Wrong(c, [now] + later, n)
    && var last := ([now] + later)[n];
       && last.On?
       && IsResponse(stream, total)
       && Delivers(last.script, last.pos, stream)
       && InSuccessRange(CountersAt(c, ([now] + later)[..n]), total)
       && U16At(stream, total - 2) == 0x9000
  }

  /** The exchange then returns the data sent, and the counters end up clean. */
  lemma AnsweredReply(c: Counters, now: View, later: seq<View>, n: nat, stream: seq<byte>, total: nat, status0: u16)
    requires Answered(c, now, later, n, stream, total)
    ensures Retry(c, now, later, status0)
         == Retried(Returned(Reply(stream[2..total - 2], 0x9000)), CLEAN, n)
  {
    hide Receive, Wrong, Delivers, CountersAt;
    RetrySkips(c, now, later, n, status0);
    var last, c' := ([now] + later)[n], CountersAt(c, ([now] + later)[..n]);
    ExactInSuccessRange(c', last.script, last.pos, stream, total);
    CleanAfterReply(c', last.script, last.pos);
    RetryOnce(c', last, later[n..], status0);
  }

  lemma CleanAfterReply(c: Counters, script: nat -> HidRead, pos: nat)
    requires Receive(c, script, pos).result.Ok?
    ensures Receive(c, script, pos).c == CLEAN
  {
    hide ReadLoop, ReadStep, Split;
  }

  /** In particular from clean counters, after attempts that fail on their first frame. */
  lemma AnsweredAtOnce(now: View, later: seq<View>, n: nat, stream: seq<byte>, total: nat)
    requires FailBefore(now, later, n) && ([now] + later)[n].On?
    requires IsResponse(stream, total) && InSuccessRange(CLEAN, total) && U16At(stream, total - 2) == 0x9000
    requires var last := ([now] + later)[n]; Delivers(last.script, last.pos, stream)
    ensures Answered(CLEAN, now, later, n, stream, total)
  {
    hide Wrong, CountersAt, Delivers, FailsAtOnce;
    AtOnce(CLEAN, [now] + later, n);
  }

  /** sign_tx returns the 65 bytes of the response as r, s and v. */
  lemma SignTxAnswer(c: Counters, now: View, later: seq<View>, n: nat, stream: seq<byte>)
    requires Answered(c, now, later, n, stream, 69)
    ensures var r := Finish(Retry(c, now, later, CODE_SUCCESS).outcome, DecodeSignature);
      && r.Some? && r.value.Ok?
      && var sig := r.value.value;
         sig.r + sig.s + sig.v == stream[2..67] && |sig.r| == |sig.s| == 32 && |sig.v| == 1
  {
    hide Retry, Answered;
    AnsweredReply(c, now, later, n, stream, 69, CODE_SUCCESS);
    AnsweredLength(c, now, later, n, stream, 69);
    var data := stream[2..67];
    assert data == data[..32] + data[32..64] + data[64..];
  }

  lemma AnsweredLength(c: Counters, now: View, later: seq<View>, n: nat, stream: seq<byte>, total: nat)
    requires Answered(c, now, later, n, stream, total)
    ensures 4 <= total <= |stream|
  {
  }

  /** get_address returns the 20 bytes of the response. */
  lemma GetAddressAnswer(c: Counters, now: View, later: seq<View>, n: nat, stream: seq<byte>)
    requires Answered(c, now, later, n, stream, 24)
    ensures Finish(Retry(c, now, later, CODE_SUCCESS).outcome, DecodeAddress) == Some(Ok(stream[2..22]))
  {
    hide Retry, Answered;
    AnsweredReply(c, now, later, n, stream, 24, CODE_SUCCESS);
    AnsweredLength(c, now, later, n, stream, 24);
    assert stream[2..22][..20] == stream[2..22];
  }

  /** get_app_version returns a string that reads back to the three bytes of the response. */
  lemma GetVersionAnswer(c: Counters, now: View, later: seq<View>, n: nat, stream: seq<byte>)
    requires Answered(c, now, later, n, stream, 7)
    ensures var r := Finish(Retry(c, now, later, CODE_SUCCESS).outcome, DecodeVersion);
      r.Some? && r.value.Ok? && ReadVersion(r.value.value) == Some((stream[2], stream[3], stream[4]))
  {
    hide Retry, Answered, ReadVersion, VersionString;
    AnsweredReply(c, now, later, n, stream, 7, CODE_SUCCESS);
    AnsweredLength(c, now, later, n, stream, 7);
    ReadVersionString(stream[2], stream[3], stream[4]);
  }

  /** get_app_list returns the list that the response carries. */
  lemma GetAppListAnswer(c: Counters, now: View, later: seq<View>, n: nat, stream: seq<byte>,
                         version: byte, items: seq<AppItem>, skipped: seq<byte>)
    requires |items| == |skipped| && AllValid(items) && Carries(stream, version, items, skipped)
    requires Answered(c, now, later, n, stream, 4 + |[version] + EncodeAll(items, skipped)|)
    ensures Finish(Retry(c, now, later, CODE_SUCCESS).outcome, DecodeAppList) == Some(Ok(items))
  {
    hide Retry, Answered, Parse;
    AnsweredReply(c, now, later, n, stream, 4 + |[version] + EncodeAll(items, skipped)|, CODE_SUCCESS);
    ParseEncode(version, items, skipped);
  }

  /** What the commands make of a successful response of any length in the range. */
  lemma SuccessAnswers(c: Counters, now: View, later: seq<View>, n: nat, stream: seq<byte>, total: nat)
    requires Answered(c, now, later, n, stream, total)
    ensures 4 <= total <= |stream|
    ensures var o := Retry(c, now, later, CODE_SUCCESS).outcome;
      && Finish(o, DecodeSignature)
         == Some(if total < 68 then Err(OutOfRange)
                 else Ok(Signature(stream[2..34], stream[34..66], [stream[total - 3]])))
      && Finish(o, DecodeAddress) == Some(if total < 24 then Err(OutOfRange) else Ok(stream[2..22]))
      && Finish(o, DecodeVersion)
         == Some(if total < 7 then Err(OutOfRange) else Ok(VersionString(stream[2], stream[3], stream[4])))
      && Finish(o, DecodeAppList) == Some(Parse(stream[2..total - 2]))
  {
    hide Retry, Answered, Parse, VersionString;
    AnsweredReply(c, now, later, n, stream, total, CODE_SUCCESS);
    AnsweredLength(c, now, later, n, stream, total);
    var data := stream[2..total - 2];
    if total >= 68 {
      assert data[..32] == stream[2..34];
      SliceOfSlice(stream, 2, total - 2, 32, 64);
      assert data[|data| - 1..] == [stream[total - 3]];
    }
    if total >= 24 {
      assert data[..20] == stream[2..22];
    }
  }

  /** A response of any status: after attempts that meet wrong numbers, the last handle delivers
      one whose length is in the range for the counters they left. */
  ghost predicate Replied(c: Counters, now: View, later: seq<View>, n: nat, stream: seq<byte>, total: nat) {
    && n <= |later| && Wrong(c, [now] + later, n)
    && var last := ([now] + later)[n];
       && last.On?
       && IsResponse(stream, total)
       && Delivers(last.script, last.pos, stream)
       && InExactRange(CountersAt(c, ([now] + later)[..n]), total)
  }

  lemma RepliedReply(c: Counters, now: View, later: seq<View>, n: nat, stream: seq<byte>, total: nat, status0: u16)
    requires Replied(c, now, later, n, stream, total)
    ensures 4 <= total <= |stream|
    ensures Retry(c, now, later, status0)
         == Retried(Returned(Reply(stream[2..total - 2], U16At(stream, total - 2))), CLEAN, n)
  {
    hide Receive, Wrong, Delivers, CountersAt;
    RetrySkips(c, now, later, n, status0);
    var last, c' := ([now] + later)[n], CountersAt(c, ([now] + later)[..n]);
    ExactInRange(c', last.script, last.pos, stream, total);
    CleanAfterReply(c', last.script, last.pos);
    RetryOnce(c', last, later[n..], status0);
  }

  /** A status other than success raises the exchange error with that status, in every command. */
  lemma StatusAnswers(c: Counters, now: View, later: seq<View>, n: nat, stream: seq<byte>, total: nat, status0: u16)
    requires Replied(c, now, later, n, stream, total)
    requires 4 <= total <= |stream| && U16At(stream, total - 2) != 0x9000
    ensures var o, w := Retry(c, now, later, status0).outcome, U16At(stream, total - 2);
      && Finish(o, DecodeSignature) == Some(Err(ExchangeError(w)))
      && Finish(o, DecodeAddress) == Some(Err(ExchangeError(w)))
      && Finish(o, DecodeVersion) == Some(Err(ExchangeError(w)))
      && Finish(o, DecodeAppList) == Some(Err(ExchangeError(w)))
  {
    hide Retry, Replied;
    RepliedReply(c, now, later, n, stream, total, status0);
  }

  /** Any other error that the last attempt raises reaches the caller of every command. */
  lemma ErrorAnswers(c: Counters, now: View, later: seq<View>, n: nat, e: Error, status0: u16)
    requires n <= |later| && Wrong(c, [now] + later, n)
    requires var last := ([now] + later)[n];
      && last.On? && !e.WrongSeqno?
      && Receive(CountersAt(c, ([now] + later)[..n]), last.script, last.pos).result == Err(e)
    ensures var o := Retry(c, now, later, status0).outcome;
      && Finish(o, DecodeSignature) == Some(Err(e))
      && Finish(o, DecodeAddress) == Some(Err(e))
      && Finish(o, DecodeVersion) == Some(Err(e))
      && Finish(o, DecodeAppList) == Some(Err(e))
  {
    hide Receive, Wrong, CountersAt;
    RetrySkips(c, now, later, n, status0);
  }

  /** An attempt that get_app_list reports as an empty list: there is no handle, or the reply is
      successful and has at most a version byte. */
  predicate LooksEmpty(c: Counters, v: View) {
    v.On? ==>
      var r := Receive(c, v.script, v.pos).result;
      r.Ok? && r.value.status == CODE_SUCCESS && |r.value.data| <= 1
  }

  lemma DecodesEmpty(reply: Reply)
    ensures DecodeAppList(reply) == Ok([]) <==> reply.status == CODE_SUCCESS && |reply.data| <= 1
  {
  }

  /** get_app_list returns an empty list exactly if, after attempts that meet wrong numbers, one
      of these two happens.  A lost handle looks as if no app were installed. */
  lemma EmptyListIff(c: Counters, now: View, later: seq<View>)
    ensures Finish(Retry(c, now, later, CODE_SUCCESS).outcome, DecodeAppList) == Some(Ok([])) <==>
      exists k :: 0 <= k <= |later| && Wrong(c, [now] + later, k)
                  && LooksEmpty(CountersAt(c, ([now] + later)[..k]), ([now] + later)[k])
  {
    hide Retry, Wrong, CountersAt, DecodeAppList, LooksEmpty;
    var attempts := [now] + later;
    var used := Retry(c, now, later, CODE_SUCCESS).used;
    RetryStops(c, now, later, CODE_SUCCESS);
    AloneEmpty(CountersAt(c, attempts[..used]), attempts[used], []);
    if k :| 0 <= k <= |later| && Wrong(c, attempts, k) && LooksEmpty(CountersAt(c, attempts[..k]), attempts[k]) {
      RetrySkips(c, now, later, k, CODE_SUCCESS);
      AloneEmpty(CountersAt(c, attempts[..k]), attempts[k], later[k..]);
    }
  }

  lemma AloneEmpty(c: Counters, v: View, later: seq<View>)
    ensures LooksEmpty(c, v) ==>
      Finish(Retry(c, v, later, CODE_SUCCESS).outcome, DecodeAppList) == Some(Ok([]))
    ensures later == [] && Finish(Retry(c, v, later, CODE_SUCCESS).outcome, DecodeAppList) == Some(Ok([])) ==>
      LooksEmpty(c, v)
  {
    hide Receive, DecodeAppList;
    DecodesEmpty(Reply([], CODE_SUCCESS));
    if v.On? {
      RetryOnce(c, v, later, CODE_SUCCESS);
      var r := Receive(c, v.script, v.pos).result;
      if r.Ok? {
        DecodesEmpty(r.value);
      }
    }
  }

  /** If the handle is lost, the other commands raise std::out_of_range, although the status is
      still that of success. */
  lemma LostHandle(c: Counters, now: View, later: seq<View>, n: nat)
    requires n <= |later| && Wrong(c, [now] + later, n) && ([now] + later)[n] == Gone
    ensures var o := Retry(c, now, later, CODE_SUCCESS).outcome;
      && Finish(o, DecodeAppList) == Some(Ok([]))
      && Finish(o, DecodeAddress) == Some(Err(OutOfRange))
      && Finish(o, DecodeSignature) == Some(Err(OutOfRange))
      && Finish(o, DecodeVersion) == Some(Err(OutOfRange))
  {
    hide Wrong, CountersAt;
    RetrySkips(c, now, later, n, CODE_SUCCESS);
  }

  /** What an exchange that left frames unread costs the next one: it fails on the first of
      them, reopens the device and reads the fresh response, with `m_offset` and `rn` as the
      first exchange left them. */
  lemma AfterResidual(script: nat -> HidRead, pos: nat, stream: seq<byte>, total: nat,
                      next: View, status0: u16)
    requires IsResponse(stream, total) && Delivers(script, pos, stream)
    requires Ceil(total, 59) > Ceil(total, 64) && next.On?
    ensures var e := Receive(CLEAN, script, pos);
      var again := Receive(e.c.(cseq := 0), next.script, next.pos);
      forall reply ::
        Retry(e.c, On(script, e.pos), [next], status0).outcome == Returned(reply) <==> again.result == Ok(reply)
  {
    hide Receive;
    Residual(script, pos, stream, total);
    var e := Receive(CLEAN, script, pos);
    RetryOnce(e.c, On(script, e.pos), [next], status0);
    RetryOnce(e.c.(cseq := 0), next, [], status0);
    assert [next][1..] == [];
  }

  /** Every response of this length to the repeated command is returned as it is. */
  ghost predicate Recovers(e: Exchanged, script: nat -> HidRead, total: nat, status0: u16) {
    forall stream {:trigger ScriptOf(stream)} :: IsResponse(stream, total) ==>
      Retry(e.c, On(script, e.pos), [On(ScriptOf(stream), 0)], status0).outcome
      == Returned(Expected(stream, total).value)
  }

  /** The same for successful responses. */
  ghost predicate RecoversSuccess(e: Exchanged, script: nat -> HidRead, total: nat, status0: u16) {
    forall stream {:trigger ScriptOf(stream)} ::
      IsResponse(stream, total) && U16At(stream, total - 2) == 0x9000 ==>
      Retry(e.c, On(script, e.pos), [On(ScriptOf(stream), 0)], status0).outcome
      == Returned(Expected(stream, total).value)
  }

  /** Whether an exchange over a response of this length returns normally. */
  predicate EndsNormally(total: nat) {
    total <= 255 || 1 <= total % 64 <= 54
  }

  /** Frames left unread by one exchange are harmless to the next one only in part.  If the
      first exchange returned, the reopening is all they cost.  If it raised, its counters
      spoil every response of more than one frame. */
  lemma RecoversFromResidual(script: nat -> HidRead, pos: nat, stream: seq<byte>, total: nat,
                             total2: nat, status0: u16)
    requires IsResponse(stream, total) && Delivers(script, pos, stream)
    requires Ceil(total, 59) > Ceil(total, 64) && 4 <= total2 <= 0xFFFF
    ensures Recovers(Receive(CLEAN, script, pos), script, total2, status0)
            <==> total2 <= 59 || (EndsNormally(total) && 65 <= total2 <= 118)
    ensures RecoversSuccess(Receive(CLEAN, script, pos), script, total2, status0)
            <==> total2 <= 60 || (EndsNormally(total) && 65 <= total2 <= 119)
  {
    hide Receive, ScriptOf, Retry;
    var e := Receive(CLEAN, script, pos);
    var c := e.c.(cseq := 0);
    forall stream2 | IsResponse(stream2, total2)
      ensures Retry(e.c, On(script, e.pos), [On(ScriptOf(stream2), 0)], status0).outcome
              == Returned(Expected(stream2, total2).value)
              <==> Receive(c, ScriptOf(stream2), 0).result == Expected(stream2, total2)
    {
      AfterResidual(script, pos, stream, total, On(ScriptOf(stream2), 0), status0);
    }
    CountersLeft(script, pos, stream, total);
    ExactRange(c, total2);
    SuccessRange(c, total2);
    assert Recovers(e, script, total2, status0) <==> ExactForAll(c, total2);
    assert RecoversSuccess(e, script, total2, status0) <==> ExactForSuccess(c, total2);
  }

  lemma CountersLeft(script: nat -> HidRead, pos: nat, stream: seq<byte>, total: nat)
    requires IsResponse(stream, total) && Delivers(script, pos, stream)
    ensures var e := Receive(CLEAN, script, pos);
      if EndsNormally(total) then e.result.Ok? && e.c == CLEAN
      else e.result == Err(OutOfRange) && e.c.offset > 0
  {
    hide Receive, Assembled;
    Residual(script, pos, stream, total);
    ReceiveIs(CLEAN, script, pos, stream, total);
  }

  /** A response that spoils the next one: of 256 bytes, one frame is left unread and
      std::out_of_range is raised; the signature asked for next is not returned as it was sent. */
  lemma SpoiledSignature(status0: u16)
    ensures var first := ScriptOf(Ones(256));
      var e := Receive(CLEAN, first, 0);
      var signed := Response(OnesData(69), CODE_SUCCESS);
      && e.result == Err(OutOfRange)
      && Retry(e.c, On(first, e.pos), [On(ScriptOf(signed), 0)], status0).outcome
         != Returned(Reply(OnesData(69), CODE_SUCCESS))
  {
    hide Receive, ScriptOf, Retry, Response;
    var first, signed := ScriptOf(Ones(256)), Response(OnesData(69), CODE_SUCCESS);
    ScriptDelivers(Ones(256), 256);
    ScriptDelivers(signed, 69);
    var e := Receive(CLEAN, first, 0);
    CountersLeft(first, 0, Ones(256), 256);
    AfterResidual(first, 0, Ones(256), 256, On(ScriptOf(signed), 0), status0);
    WrongOutOfSuccessRange(e.c.(cseq := 0), ScriptOf(signed), 0, 69);
  }
}
