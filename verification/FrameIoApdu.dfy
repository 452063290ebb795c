/** The incoming half of frame_io and the exchange of frame_io_apdu, as written: three counters
    that advance by 64 for every accepted frame although a frame carries 59 bytes. */
module FrameIoApdu {
  import opened Bytes
  import opened HidppDevice
  import opened FrameIo

  const CODE_SUCCESS: u16 := 0x9000
  const CODE_NO_STATUS_RESULT: u16 := 0x9001

  datatype Error =
    | NotInitialized
    | PayloadTooLarge
    | BadChannel(id: u16)
    | BadTag(tag: byte)
    | WrongSeqno(expected: u16, given: u16)
    | OutOfRange
    | ExchangeError(code: u16)

  datatype Result<+T> = Ok(value: T) | Err(error: Error)

  datatype Reply = Reply(data: seq<byte>, status: u16)

  /** What frame_io::read makes of one hid_read. */
  datatype Verdict = Skip | Accept(part: seq<byte>) | Raise(error: Error)

  function Inspect(cseq: u16, r: HidRead): Verdict {
    if ReadCount(r) != 64 then Skip
    else if U16At(r.block, 0) != 0x0101 then Raise(BadChannel(U16At(r.block, 0)))
    else if r.block[2] != 0x05 then Raise(BadTag(r.block[2]))
    else if U16At(r.block, 3) != cseq then Raise(WrongSeqno(cseq, U16At(r.block, 3)))
    else Accept(r.block[5..])
  }

  datatype Counters = Counters(cseq: u16, offset: nat, rn: nat) {
    /** A frame other than number 0 was preceded by one that advanced the offset. */
    predicate Valid() {
      cseq > 0 ==> offset >= 64
    }
  }

  const CLEAN := Counters(0, 0, 0)

  /** Where the next accepted frame lands in the output buffer. */
  function Landing(c: Counters): nat
    requires c.Valid()
  {
    if c.cseq == 0 then 0 else c.offset - 5
  }

  /** frame_io::read: its result, and the counters and output buffer it leaves. */
  datatype ReadDone = ReadDone(r: Result<nat>, c: Counters, out: seq<byte>)

  function ReadOnce(c: Counters, out: seq<byte>, r: HidRead): ReadDone
    requires c.Valid()
  {
    match Inspect(c.cseq, r)
    case Skip => ReadDone(Ok(0), c, out)
    case Raise(e) => ReadDone(Err(e), c, out)
    case Accept(part) =>
      ReadDone(Ok(59), Counters(Next(c.cseq), c.offset + 64, c.rn), Overwrite(out, Landing(c), part))
  }

  /** The read loop: the counters, the output buffer and the place in the device's script. */
  datatype Progress = Progress(c: Counters, out: seq<byte>, pos: nat)
  datatype Step = Going(p: Progress) | Thrown(p: Progress, error: Error)

  function ReadStep(p: Progress, script: nat -> HidRead): (s: Step)
    requires p.c.Valid()
    ensures s.p.c.Valid() && s.p.pos == p.pos + 1
    ensures s.Going? ==> s.p.c.rn >= p.c.rn + 5
  {
    var d := ReadOnce(p.c, p.out, script(p.pos));
    match d.r
    case Err(e) => Thrown(Progress(d.c, d.out, p.pos + 1), e)
    case Ok(n) => Going(Progress(d.c.(rn := d.c.rn + n + 5), d.out, p.pos + 1))
  }

  /** Reads until `rn` has reached the response length.  It terminates whatever the device
      returns, because even a failed read counts for five bytes. */
  function ReadLoop(p: Progress, respLen: nat, script: nat -> HidRead): (s: Step)
    requires p.c.Valid()
    ensures s.p.c.Valid()
    ensures s.Going? ==> s.p.c.rn >= respLen
    decreases respLen - p.c.rn
  {
    if p.c.rn >= respLen then Going(p)
    else
      match ReadStep(p, script)
      case Thrown(q, e) => Thrown(q, e)
      case Going(q) => ReadLoop(q, respLen, script)
  }

  /** The two response bytes that hold the length, plus two, in 16 bits. */
  function ResponseLength(out: seq<byte>): u16
    requires |out| >= 2
  {
    (U16At(out, 0) + 2) % 0x1_0000
  }

  /** Cutting the assembled buffer into data and status.  A range that is reversed or goes
      past the end of the buffer raises std::out_of_range. */
  function Split(out: seq<byte>, respLen: u16): Result<Reply> {
    if respLen < 2 then Ok(Reply([], CODE_NO_STATUS_RESULT))
    else if respLen < 4 || respLen > |out| then Err(OutOfRange)
    else Ok(Reply(out[2..respLen - 2], U16At(out, respLen - 2)))
  }

  /** The result of an exchange, the counters it leaves and how far it read. */
  datatype Exchanged = Exchanged(result: Result<Reply>, c: Counters, pos: nat)

  function Conclude(s: Step, respLen: u16): Exchanged {
    match s
    case Thrown(p, e) => Exchanged(Err(e), p.c, p.pos)
    case Going(p) =>
      var result := Split(p.out, respLen);
      Exchanged(result, if result.Ok? then CLEAN else p.c, p.pos)
  }

  function Start(c: Counters, pos: nat): Progress {
    Progress(c.(cseq := 0), Zeros(255), pos)
  }

  /** The reading half of an exchange that begins with counters `c`.  Only `m_seq` is reset
      at the beginning; all three counters are cleared when it returns normally. */
  function Receive(c: Counters, script: nat -> HidRead, pos: nat): (e: Exchanged)
    ensures e.c.Valid()
  {
    match ReadStep(Start(c, pos), script)
    case Thrown(p, e) => Exchanged(Err(e), p.c, p.pos)
    case Going(p) =>
      var respLen := ResponseLength(p.out);
      Conclude(ReadLoop(p, respLen, script), respLen)
  }

  lemma LoopTurn(p: Progress, respLen: nat, script: nat -> HidRead)
    requires p.c.Valid() && p.c.rn < respLen
    ensures ReadLoop(p, respLen, script)
         == var s := ReadStep(p, script); if s.Thrown? then s else ReadLoop(s.p, respLen, script)
  {
  }

  lemma LoopDone(p: Progress, respLen: nat, script: nat -> HidRead)
    requires p.c.Valid() && p.c.rn >= respLen
    ensures ReadLoop(p, respLen, script) == Going(p)
  {
  }

  class FrameIoApdu {
    const io: HidppDevice
    const frame: BytesData
    var cseq: u16
    var offset: nat
    var rn: nat

    constructor (io: HidppDevice)
      ensures Valid() && this.io == io && Count() == CLEAN && fresh(frame)
    {
      this.io := io;
      frame := new BytesData(64);
      cseq, offset, rn := 0, 0, 0;
    }

    function Count(): Counters
      reads this
    {
      Counters(cseq, offset, rn)
    }

    ghost predicate Valid()
      reads this, frame
    {
      |frame.data| == 64 && Count().Valid()
    }

    /** Copy assignment from a framer built around `dev`: the handle and the counters of the
        new framer replace those of this one. */
    method Assign(dev: HidppDevice)
      requires dev != io
      modifies this, frame, io
      ensures Valid() && Count() == CLEAN
      ensures io.dev == old(dev.dev)
      ensures io.vendorId == old(dev.vendorId) && io.productId == old(dev.productId)
    {
      io.Assign(dev);
      cseq, offset, rn := 0, 0, 0;
      frame.data := Zeros(64);
    }

    method Reset()
      modifies this`cseq
      ensures cseq == 0
    {
      cseq := 0;
    }

    method Read(out: BytesData) returns (r: Result<nat>)
      requires Valid() && io.dev != null && out != frame
      modifies this`cseq, this`offset, frame, io.dev`pos, out
      ensures Valid() && io.dev.pos == old(io.dev.pos) + 1 && |out.data| >= |old(out.data)|
      ensures ReadDone(r, Count(), out.data)
           == ReadOnce(old(Count()), old(out.data), io.dev.script(old(io.dev.pos)))
    {
      hide Overwrite;
      ghost var next := io.dev.script(io.dev.pos);
      OverwriteAll(frame.data, next.block);
      var n := io.Read(frame);
      if n != 64 {
        return Ok(0);
      }
      assert frame.data == next.block;
      var channelId := U16At(frame.data, 0);
      var commandTag := frame.data[2];
      var given := U16At(frame.data, 3);
      if channelId != 0x0101 {
        return Err(BadChannel(channelId));
      } else if commandTag != 0x05 {
        return Err(BadTag(commandTag));
      } else if given != cseq {
        return Err(WrongSeqno(cseq, given));
      }
      if cseq == 0 {
        n := out.Write(0, frame.data[5..]);
      } else {
        n := out.Write(offset - 5, frame.data[5..]);
      }
      cseq := Next(cseq);
      offset := offset + 64;
      r := Ok(n);
    }

    /** Sends the command and collects the response.  The payload check comes first. */
    method Exchange(a: Apdu) returns (r: Result<Reply>)
      requires Valid() && io.dev != null
      modifies this`cseq, this`offset, this`rn, frame, io.dev
      ensures Valid()
      ensures a.payloadSize > 255 ==>
        r == Err(PayloadTooLarge) && Count() == old(Count())
        && io.dev.pos == old(io.dev.pos) && io.dev.written == old(io.dev.written)
      ensures a.payloadSize <= 255 ==>
        && io.dev.written == old(io.dev.written) + Frames(Message(a), 0)
        && Exchanged(r, Count(), io.dev.pos)
           == Receive(old(Count()), io.dev.script, old(io.dev.pos))
    {
      hide Overwrite, Inspect, Frames, Message, ReadOnce, U16At, ReadLoop;
      if a.payloadSize > 255 {
        return Err(PayloadTooLarge);
      }
      Reset();
      var n := WriteApdu(io, a);
      var buffer := new BytesData(255);
      ghost var p := Start(old(Count()), old(io.dev.pos));

      var got := Read(buffer);
      if got.Err? {
        return Err(got.error);
      }
      rn := rn + got.value + 5;
      p := ReadStep(p, io.dev.script).p;

      var respLen := ResponseLength(buffer.data);
      ghost var all := ReadLoop(p, respLen, io.dev.script);
      while rn < respLen
        invariant Valid() && fresh(buffer)
        invariant io.dev.written == old(io.dev.written) + Frames(Message(a), 0)
        invariant p == Progress(Count(), buffer.data, io.dev.pos)
        invariant ReadLoop(p, respLen, io.dev.script) == all
        decreases respLen - rn
      {
        LoopTurn(p, respLen, io.dev.script);
        got := Read(buffer);
        if got.Err? {
          return Err(got.error);
        }
        rn := rn + got.value + 5;
        p := ReadStep(p, io.dev.script).p;
      }

      LoopDone(p, respLen, io.dev.script);
      r := Ok(Reply([], CODE_NO_STATUS_RESULT));
      if respLen >= 2 {
        if respLen < 4 || respLen > |buffer.data| {
          return Err(OutOfRange);
        }
        r := Ok(Reply(buffer.data[2..respLen - 2], U16At(buffer.data, respLen - 2)));
      }
      cseq, offset, rn := 0, 0, 0;
    }
  }
}
