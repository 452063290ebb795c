/** Which responses frame_io_apdu::exchange puts together correctly.  A response of total length
    T (two length bytes, data, two status bytes) travels as Ceil(T, 59) frames of 59 bytes; the
    stream is what those frames carry, padding included. */
module Reassembly {
  import opened Bytes
  import opened HidppDevice
  import opened FrameIo
  import opened FrameIoApdu

  ghost predicate IsResponse(stream: seq<byte>, total: nat) {
    && 4 <= total <= 0xFFFF
    && |stream| == 59 * Ceil(total, 59)
    && U16At(stream, 0) == total - 2
  }

  function GoodRead(k: nat, part: seq<byte>): HidRead
    requires |part| == 59
  {
    HidRead(64, Frame(k % 0x1_0000, part), false)
  }

  /** From `pos` on, the device's reads return the frames of `stream`. */
  ghost predicate Delivers(script: nat -> HidRead, pos: nat, stream: seq<byte>) {
    && |stream| % 59 == 0
    && forall k: nat :: k < |stream| / 59 ==>
      script(pos + k) == GoodRead(k, stream[59 * k..59 * k + 59])
  }

  /** What the caller is promised. */
  function Expected(stream: seq<byte>, total: nat): Result<Reply>
    requires 4 <= total <= |stream|
  {
    Ok(Reply(stream[2..total - 2], U16At(stream, total - 2)))
  }

  /** How many frames the read loop takes when `rn` starts at `rn0`. */
  function FramesRead(rn0: nat, total: nat): nat {
    if total <= rn0 + 64 then 1 else Ceil(total - rn0, 64)
  }

  /** The output buffer after `g` frames when `m_offset` started at `offset0`. */
  function Assembled(stream: seq<byte>, offset0: nat, g: nat): seq<byte>
    requires 59 * g <= |stream|
  {
    if g == 0 then Zeros(255)
    else
      var k := g - 1;
      Overwrite(Assembled(stream, offset0, k),
                if k == 0 then 0 else offset0 + 64 * k - 5,
                stream[59 * k..59 * k + 59])
  }

  /** The same, byte by byte. */
  function Cell(stream: seq<byte>, offset0: nat, g: nat, i: nat): byte
    requires 59 * g <= |stream|
  {
    if i < 59 then if g == 0 then 0 else stream[i]
    else if i < offset0 + 59 then 0
    else
      var j := i - offset0 + 5;
      if j % 64 < 59 && j / 64 < g then stream[59 * (j / 64) + j % 64] else 0
  }

  function AssembledLength(offset0: nat, g: nat): nat {
    if g <= 1 then 255 else Max(255, offset0 + 64 * g - 10)
  }

  /** What one more frame changes. */
  lemma CellStep(stream: seq<byte>, offset0: nat, k: nat, i: nat)
    requires 59 * k + 59 <= |stream|
    ensures var start := if k == 0 then 0 else offset0 + 64 * k - 5;
      Cell(stream, offset0, k + 1, i)
      == if start <= i < start + 59 then stream[59 * k + i - start] else Cell(stream, offset0, k, i)
  {
    if k > 0 && i >= offset0 + 59 {
      var j := i - offset0 + 5;
      assert j / 64 == k <==> 64 * k <= j < 64 * k + 64;
    }
  }

  lemma {:induction false} AssembledIs(stream: seq<byte>, offset0: nat, g: nat)
    requires 59 * g <= |stream|
    ensures |Assembled(stream, offset0, g)| == AssembledLength(offset0, g)
    ensures forall i :: 0 <= i < AssembledLength(offset0, g) ==>
      Assembled(stream, offset0, g)[i] == Cell(stream, offset0, g, i)
  {
    if g > 0 {
      hide Cell;
      AssembledIs(stream, offset0, g - 1);
      forall i: nat | i < AssembledLength(offset0, g)
        ensures Assembled(stream, offset0, g)[i] == Cell(stream, offset0, g, i)
      {
        CellStep(stream, offset0, g - 1, i);
        if i >= AssembledLength(offset0, g - 1) {
          CellBeyond(stream, offset0, g - 1, i);
        }
      }
    }
  }

  lemma CellBeyond(stream: seq<byte>, offset0: nat, g: nat, i: nat)
    requires 59 * g <= |stream| && i >= AssembledLength(offset0, g)
    ensures Cell(stream, offset0, g, i) == 0
  {
  }

  function After(c0: Counters, stream: seq<byte>, pos: nat, g: nat): Progress
    requires 59 * g <= |stream|
  {
    Progress(Counters(g % 0x1_0000, c0.offset + 64 * g, c0.rn + 64 * g),
             Assembled(stream, c0.offset, g), pos + g)
  }

  lemma OneFrame(c0: Counters, script: nat -> HidRead, pos: nat, stream: seq<byte>, g: nat)
    requires Delivers(script, pos, stream) && 59 * g + 59 <= |stream| && g < 0xFFFF
    ensures After(c0, stream, pos, g).c.Valid()
    ensures ReadStep(After(c0, stream, pos, g), script) == Going(After(c0, stream, pos, g + 1))
  {
    hide Overwrite;
    var part := stream[59 * g..59 * g + 59];
    assert script(pos + g) == GoodRead(g, part);
    var block := script(pos + g).block;
    assert block[..2] == [0x01, 0x01] && block[2] == 0x05;
    assert block[3] == g / 0x100 && block[4] == g % 0x100;
    assert Inspect(g, script(pos + g)) == Accept(part);
  }

  lemma {:induction false} LoopRun(c0: Counters, script: nat -> HidRead, pos: nat, stream: seq<byte>,
                                   total: nat, g: nat)
    requires Delivers(script, pos, stream) && |stream| / 59 < 0xFFFF
    requires 1 <= g <= FramesRead(c0.rn, total) <= |stream| / 59
    ensures After(c0, stream, pos, g).c.Valid()
    ensures ReadLoop(After(c0, stream, pos, g), total, script)
         == Going(After(c0, stream, pos, FramesRead(c0.rn, total)))
    decreases FramesRead(c0.rn, total) - g
  {
    hide Assembled, ReadStep, Delivers;
    OneFrame(c0, script, pos, stream, g - 1);
    if c0.rn + 64 * g < total {
      OneFrame(c0, script, pos, stream, g);
      LoopRun(c0, script, pos, stream, total, g + 1);
    }
  }

  lemma FirstRead(c0: Counters, script: nat -> HidRead, pos: nat, stream: seq<byte>, total: nat)
    requires IsResponse(stream, total) && Delivers(script, pos, stream)
    ensures var p := After(c0, stream, pos, 1);
      ReadStep(Start(c0, pos), script) == Going(p) && |p.out| >= 2 && ResponseLength(p.out) == total
  {
    hide Overwrite, Inspect;
    OneFrame(c0, script, pos, stream, 0);
    AssembledIs(stream, c0.offset, 1);
    var first := Assembled(stream, c0.offset, 1);
    assert first[0] == stream[0] && first[1] == stream[1];
  }

  lemma ReadsNoMoreThanSent(rn0: nat, total: nat)
    requires total > 0
    ensures 1 <= FramesRead(rn0, total) <= Ceil(total, 59)
  {
  }

  /** The exchange in closed form, from any counters. */
  lemma ReceiveIs(c0: Counters, script: nat -> HidRead, pos: nat, stream: seq<byte>, total: nat)
    requires IsResponse(stream, total) && Delivers(script, pos, stream)
    ensures var g := FramesRead(c0.rn, total);
      59 * g <= |stream|
      && var result := Split(Assembled(stream, c0.offset, g), total);
         Receive(c0, script, pos) == Exchanged(
           result,
           if result.Ok? then CLEAN else Counters(g, c0.offset + 64 * g, c0.rn + 64 * g),
           pos + g)
  {
    hide Assembled, Split, ReadStep, ReadLoop, FramesRead, ResponseLength, Ceil;
    ReadsNoMoreThanSent(c0.rn, total);
    assert Ceil(total, 59) < 0xFFFF by { CeilBound(total); }
    FirstRead(c0, script, pos, stream, total);
    LoopRun(c0, script, pos, stream, total, 1);
  }

  lemma CeilBound(total: nat)
    requires total <= 0xFFFF
    ensures Ceil(total, 59) < 0xFFFF
  {
  }

  lemma SplitExact(out: seq<byte>, stream: seq<byte>, total: u16)
    requires 4 <= total <= |stream|
    ensures Split(out, total) == Expected(stream, total) <==>
      total <= |out| && forall i :: 2 <= i < total ==> out[i] == stream[i]
  {
    if total <= |out| && Split(out, total) == Expected(stream, total) {
      var data, sent := out[2..total - 2], stream[2..total - 2];
      forall i | 2 <= i < total ensures out[i] == stream[i] {
        if i < total - 2 {
          assert data[i - 2] == sent[i - 2];
        }
      }
    }
    if total <= |out| && forall i :: 2 <= i < total ==> out[i] == stream[i] {
      assert out[2..total - 2] == stream[2..total - 2];
    }
  }

  /** For one content: the exchange is right exactly if every byte after the length field is
      where it belongs. */
  lemma ExactForContent(c0: Counters, script: nat -> HidRead, pos: nat, stream: seq<byte>, total: nat)
    requires IsResponse(stream, total) && Delivers(script, pos, stream)
    ensures var g := FramesRead(c0.rn, total);
      59 * g <= |stream|
      && (Receive(c0, script, pos).result == Expected(stream, total) <==>
          && total <= AssembledLength(c0.offset, g)
          && forall i :: 2 <= i < total ==> Cell(stream, c0.offset, g, i) == stream[i])
  {
    hide Assembled, Split, Receive, FramesRead, AssembledLength, Cell, Expected;
    ReceiveIs(c0, script, pos, stream, total);
    var g := FramesRead(c0.rn, total);
    AssembledIs(stream, c0.offset, g);
    SplitExact(Assembled(stream, c0.offset, g), stream, total);
  }

  /** The range in which reassembly is exact, for given counters at the start. */
  predicate InExactRange(c0: Counters, total: nat) {
    total <= 59 || (c0.offset == 0 && c0.rn + 64 < total <= 118)
  }

  lemma ExactInRange(c0: Counters, script: nat -> HidRead, pos: nat, stream: seq<byte>, total: nat)
    requires IsResponse(stream, total) && Delivers(script, pos, stream)
    requires InExactRange(c0, total)
    ensures Receive(c0, script, pos).result == Expected(stream, total)
  {
    hide Receive, Delivers, Expected;
    ExactForContent(c0, script, pos, stream, total);
    if total > 59 {
      assert FramesRead(c0.rn, total) == 2;
    }
  }

  /** A content that goes wrong: all bytes after the length field are 1. */
  function Ones(total: nat): (stream: seq<byte>)
    requires 4 <= total <= 0xFFFF
    ensures IsResponse(stream, total)
  {
    U16Bytes(total - 2) + seq(59 * Ceil(total, 59) - 2, _ => 1)
  }

  lemma WrongOutOfRange(c0: Counters, script: nat -> HidRead, pos: nat, total: nat)
    requires 4 <= total <= 0xFFFF && !InExactRange(c0, total)
    requires Delivers(script, pos, Ones(total))
    ensures Receive(c0, script, pos).result != Expected(Ones(total), total)
  {
    var stream := Ones(total);
    ExactForContent(c0, script, pos, stream, total);
    var g := FramesRead(c0.rn, total);
    var i := if c0.offset > 0 || total <= 118 then 59 else 118;
    assert Cell(stream, c0.offset, g, i) == 0 != stream[i];
  }

  /** A device that sends nothing but the frames of `stream`. */
  function ScriptOf(stream: seq<byte>): nat -> HidRead {
    (k: nat) => if 59 * k + 59 <= |stream| then GoodRead(k, stream[59 * k..59 * k + 59])
         else HidRead(0, Zeros(64), false)
  }

  lemma ScriptDelivers(stream: seq<byte>, total: nat)
    requires IsResponse(stream, total)
    ensures Delivers(ScriptOf(stream), 0, stream)
  {
  }

  ghost predicate ExactForAll(c0: Counters, total: nat) {
    forall stream {:trigger ScriptOf(stream)} :: IsResponse(stream, total) ==>
      Receive(c0, ScriptOf(stream), 0).result == Expected(stream, total)
  }

  /** Reassembly is right for every content exactly in this range. */
  lemma ExactRange(c0: Counters, total: nat)
    requires 4 <= total <= 0xFFFF
    ensures ExactForAll(c0, total) <==> InExactRange(c0, total)
  {
    hide Receive, ScriptOf, Delivers, Expected, InExactRange, Ones;
    forall stream | IsResponse(stream, total) ensures Delivers(ScriptOf(stream), 0, stream) {
      ScriptDelivers(stream, total);
    }
    if InExactRange(c0, total) {
      forall stream | IsResponse(stream, total)
        ensures Receive(c0, ScriptOf(stream), 0).result == Expected(stream, total)
      {
        ExactInRange(c0, ScriptOf(stream), 0, stream, total);
      }
    } else {
      WrongOutOfRange(c0, ScriptOf(Ones(total)), 0, total);
    }
  }

  /** From a clean start. */
  lemma ExactRangeClean(total: nat)
    requires 4 <= total <= 0xFFFF
    ensures ExactForAll(CLEAN, total) <==> total <= 59 || 65 <= total <= 118
  {
    ExactRange(CLEAN, total);
  }

  /** With the status word of success the range is wider by one on either side: the last byte of
      the response is then 0, and so is the gap it falls into. */
  predicate InSuccessRange(c0: Counters, total: nat) {
    total <= 60 || (c0.offset == 0 && c0.rn + 64 < total <= 119)
  }

  lemma ExactInSuccessRange(c0: Counters, script: nat -> HidRead, pos: nat, stream: seq<byte>, total: nat)
    requires IsResponse(stream, total) && Delivers(script, pos, stream)
    requires InSuccessRange(c0, total) && U16At(stream, total - 2) == CODE_SUCCESS
    ensures Receive(c0, script, pos).result == Expected(stream, total)
  {
    hide Receive, Delivers, Expected, Cell, AssembledLength, FramesRead;
    ExactForContent(c0, script, pos, stream, total);
    var g := FramesRead(c0.rn, total);
    assert total <= AssembledLength(c0.offset, g) by { SuccessFits(c0, total); }
    forall i | 2 <= i < total ensures Cell(stream, c0.offset, g, i) == stream[i] {
      SuccessCell(c0, stream, total, i);
    }
  }

  lemma SuccessFits(c0: Counters, total: nat)
    requires InSuccessRange(c0, total)
    ensures total <= AssembledLength(c0.offset, FramesRead(c0.rn, total))
  {
  }

  lemma SuccessCell(c0: Counters, stream: seq<byte>, total: nat, i: nat)
    requires 4 <= total <= |stream| && 59 * FramesRead(c0.rn, total) <= |stream|
    requires InSuccessRange(c0, total) && U16At(stream, total - 2) == CODE_SUCCESS && i < total
    ensures Cell(stream, c0.offset, FramesRead(c0.rn, total), i) == stream[i]
  {
    assert stream[total - 1] == 0;
    if total > 60 {
      assert FramesRead(c0.rn, total) == 2;
    }
  }

  /** The stream of a response with zeros for padding. */
  function Response(data: seq<byte>, status: u16): (stream: seq<byte>)
    requires |data| + 4 <= 0xFFFF
    ensures IsResponse(stream, |data| + 4)
    ensures stream[2..|data| + 2] == data && U16At(stream, |data| + 2) == status
  {
    var sent := U16Bytes(|data| + 2) + data + U16Bytes(status);
    sent + Zeros(59 * Ceil(|sent|, 59) - |sent|)
  }

  /** A successful response that goes wrong: its data are all 1. */
  function OnesData(total: nat): seq<byte>
    requires 4 <= total
  {
    seq(total - 4, _ => 1)
  }

  lemma WrongOutOfSuccessRange(c0: Counters, script: nat -> HidRead, pos: nat, total: nat)
    requires 4 <= total <= 0xFFFF && !InSuccessRange(c0, total)
    requires Delivers(script, pos, Response(OnesData(total), CODE_SUCCESS))
    ensures Receive(c0, script, pos).result != Expected(Response(OnesData(total), CODE_SUCCESS), total)
  {
    hide Receive, Delivers, Expected;
    var stream := Response(OnesData(total), CODE_SUCCESS);
    ExactForContent(c0, script, pos, stream, total);
    var g := FramesRead(c0.rn, total);
    var i := if c0.offset > 0 || total <= c0.rn + 64 then 59 else 118;
    assert Cell(stream, c0.offset, g, i) == 0;
    assert i < total - 2 ==> stream[i] == OnesData(total)[i - 2];
  }

  ghost predicate ExactForSuccess(c0: Counters, total: nat) {
    forall stream {:trigger ScriptOf(stream)} ::
      IsResponse(stream, total) && U16At(stream, total - 2) == CODE_SUCCESS ==>
      Receive(c0, ScriptOf(stream), 0).result == Expected(stream, total)
  }

  /** Reassembly is right for every successful response exactly in this range. */
  lemma SuccessRange(c0: Counters, total: nat)
    requires 4 <= total <= 0xFFFF
    ensures ExactForSuccess(c0, total) <==> InSuccessRange(c0, total)
  {
    hide Receive, ScriptOf, Delivers, Expected, InSuccessRange, Response;
    forall stream | IsResponse(stream, total) ensures Delivers(ScriptOf(stream), 0, stream) {
      ScriptDelivers(stream, total);
    }
    if InSuccessRange(c0, total) {
      forall stream | IsResponse(stream, total) && U16At(stream, total - 2) == CODE_SUCCESS
        ensures Receive(c0, ScriptOf(stream), 0).result == Expected(stream, total)
      {
        ExactInSuccessRange(c0, ScriptOf(stream), 0, stream, total);
      }
    } else {
      WrongOutOfSuccessRange(c0, ScriptOf(Response(OnesData(total), CODE_SUCCESS)), 0, total);
    }
  }

  /** From a clean start. */
  lemma SuccessRangeClean(total: nat)
    requires 4 <= total <= 0xFFFF
    ensures ExactForSuccess(CLEAN, total) <==> total <= 60 || 65 <= total <= 119
  {
    SuccessRange(CLEAN, total);
  }

  /** An exchange that raised past its first frame leaves `m_offset` advanced, and the next one
      resets only `m_seq`: it is then right exactly for responses of one frame, and for successful ones of one
      byte more. */
  lemma ExactRangeInterrupted(c0: Counters, script: nat -> HidRead, pos: nat, total: nat)
    requires Receive(c0, script, pos).result.Err? && Receive(c0, script, pos).c.cseq > 0
    requires 4 <= total <= 0xFFFF
    ensures ExactForAll(Receive(c0, script, pos).c, total) <==> total <= 59
    ensures ExactForSuccess(Receive(c0, script, pos).c, total) <==> total <= 60
  {
    hide Receive;
    ExactRange(Receive(c0, script, pos).c, total);
    SuccessRange(Receive(c0, script, pos).c, total);
    OffsetAfterError(c0, script, pos);
  }

  lemma OffsetAfterError(c0: Counters, script: nat -> HidRead, pos: nat)
    requires Receive(c0, script, pos).result.Err? && Receive(c0, script, pos).c.cseq > 0
    ensures Receive(c0, script, pos).c.offset >= 64
  {
    hide ReadLoop, ReadStep;
  }

  lemma LongEnoughIff(total: nat)
    requires total >= 4
    ensures total <= AssembledLength(0, Ceil(total, 64)) <==> total <= 255 || 1 <= total % 64 <= 54
    ensures FramesRead(0, total) == Ceil(total, 64)
  {
  }

  /** How much of a response an exchange leaves unread, and what becomes of it.  The exchange
      takes one frame per 64 bytes of the total, the device sends one per 59.  If frames are
      left, the next exchange on the same handle fails on its first read. */
  lemma Residual(script: nat -> HidRead, pos: nat, stream: seq<byte>, total: nat)
    requires IsResponse(stream, total) && Delivers(script, pos, stream)
    ensures var e := Receive(CLEAN, script, pos);
      && e.pos == pos + Ceil(total, 64)
      && (e.result.Ok? <==> total <= 255 || 1 <= total % 64 <= 54)
      && (e.result.Ok? ==> e.c == CLEAN)
      && (!e.result.Ok? ==> e.result == Err(OutOfRange))
      && (Ceil(total, 59) > Ceil(total, 64) ==>
            Receive(e.c, script, e.pos)
            == Exchanged(Err(WrongSeqno(0, Ceil(total, 64))), e.c.(cseq := 0), e.pos + 1))
    ensures InExactRange(CLEAN, total) ==> Ceil(total, 59) == Ceil(total, 64)
  {
    hide Assembled, Cell, AssembledLength, FramesRead, Receive, ReadLoop, Ceil, Delivers, IsResponse;
    ReceiveIs(CLEAN, script, pos, stream, total);
    TotalBounds(stream, total);
    LongEnoughIff(total);
    AssembledIs(stream, 0, FramesRead(0, total));
    if Ceil(total, 59) > Ceil(total, 64) {
      var e := Receive(CLEAN, script, pos);
      NextFails(e.c, script, pos, stream, Ceil(total, 64));
    }
  }

  lemma TotalBounds(stream: seq<byte>, total: nat)
    requires IsResponse(stream, total)
    ensures 4 <= total <= 0xFFFF && 0 < Ceil(total, 64) < 0x1_0000 && |stream| == 59 * Ceil(total, 59)
    ensures InExactRange(CLEAN, total) ==> Ceil(total, 59) == Ceil(total, 64)
  {
  }

  /** A frame other than the first is the next one to be read. */
  lemma NextFails(c: Counters, script: nat -> HidRead, pos: nat, stream: seq<byte>, g: nat)
    requires Delivers(script, pos, stream) && 0 < g < 0x1_0000 && 59 * g + 59 <= |stream|
    ensures Receive(c, script, pos + g) == Exchanged(Err(WrongSeqno(0, g)), c.(cseq := 0), pos + g + 1)
  {
    hide Inspect, ReadLoop;
    var part := stream[59 * g..59 * g + 59];
    assert script(pos + g) == GoodRead(g, part);
    LeftoverRejected(g, part);
  }

  lemma LeftoverRejected(g: nat, part: seq<byte>)
    requires |part| == 59 && 0 < g < 0x1_0000
    ensures Inspect(0, GoodRead(g, part)) == Raise(WrongSeqno(0, g))
  {
    var block := GoodRead(g, part).block;
    assert block[..2] == [0x01, 0x01] && block[2] == 0x05;
    assert block[3] == g / 0x100 && block[4] == g % 0x100;
  }
}
