/** APDU serialisation and the outgoing half of frame_io: a message is its length prefix
    followed by the APDU, and travels in frames of a five-byte header and up to 59 bytes. */
module FrameIo {
  import opened Bytes
  import opened HidppDevice

  type Payload = p: seq<byte> | |p| == 255 witness Zeros(255)

  datatype Apdu = Apdu(cla: byte, ins: byte, p1: byte, p2: byte, payloadSize: nat, payload: Payload)

  /** What the device understands of an APDU. */
  datatype Command = Command(cla: byte, ins: byte, p1: byte, p2: byte, payload: seq<byte>)

  function CommandOf(a: Apdu): Command
    requires a.payloadSize <= 255
  {
    Command(a.cla, a.ins, a.p1, a.p2, a.payload[..a.payloadSize])
  }

  /** The serialised APDU.  The payload size goes through a one-byte cast, both as the length
      byte and as the number of bytes copied; the buffer is sized without the cast. */
  function ApduBytes(a: Apdu): (s: seq<byte>)
    ensures |s| == 5 + a.payloadSize
  {
    var size := a.payloadSize % 0x100;
    [a.cla, a.ins, a.p1, a.p2, size] + a.payload[..size] + Zeros(a.payloadSize - size)
  }

  /** The cast counts: of a payload of 256 bytes nothing is copied, and the length byte is 0. */
  lemma ApduCast(a: Apdu)
    ensures var s, n := ApduBytes(a), a.payloadSize % 256;
      && |s| == 5 + a.payloadSize && s[..5] == [a.cla, a.ins, a.p1, a.p2, n]
      && s[5..5 + n] == a.payload[..n]
      && forall i :: 5 + n <= i < |s| ==> s[i] == 0
  {
    assert ApduBytes(a)[5..5 + a.payloadSize % 256] == a.payload[..a.payloadSize % 256];
  }

  /** Writes the field at `pos`, where `done` is what the earlier fields left before it. */
  method WriteField(out: BytesData, pos: nat, field: seq<byte>, ghost done: seq<byte>)
    requires pos == |done| && pos + |field| <= |out.data|
    requires out.data == done + Zeros(|out.data| - pos)
    modifies out
    ensures |out.data| == |old(out.data)|
    ensures out.data == done + field + Zeros(|out.data| - pos - |field|)
  {
    FillNext(done, |out.data| - pos, field);
    var _ := out.Write(pos, field);
  }

  method ToBytes(a: Apdu) returns (out: BytesData)
    ensures fresh(out) && out.data == ApduBytes(a)
  {
    out := new BytesData(5 + a.payloadSize);
    var size := a.payloadSize % 0x100;
    WriteField(out, 0, [a.cla], []);
    WriteField(out, 1, [a.ins], [a.cla]);
    WriteField(out, 2, [a.p1], [a.cla, a.ins]);
    WriteField(out, 3, [a.p2], [a.cla, a.ins, a.p1]);
    WriteField(out, 4, [size], [a.cla, a.ins, a.p1, a.p2]);
    if a.payloadSize > 0 {
      WriteField(out, 5, a.payload[..size], [a.cla, a.ins, a.p1, a.p2, size]);
    }
  }

  function Message(a: Apdu): seq<byte> {
    U16Bytes(|ApduBytes(a)| % 0x1_0000) + ApduBytes(a)
  }

  function Frame(cseq: u16, part: seq<byte>): (f: seq<byte>)
    ensures |f| == 5 + |part| && f[5..] == part
  {
    [0x01, 0x01, 0x05] + U16Bytes(cseq) + part
  }

  function Next(cseq: u16): u16 {
    (cseq + 1) % 0x1_0000
  }

  /** The frames of a message, the first one numbered `cseq`. */
  function Frames(message: seq<byte>, cseq: u16): seq<seq<byte>> {
    if message == [] then []
    else
      var n := Min(|message|, 59);
      [Frame(cseq, message[..n])] + Frames(message[n..], Next(cseq))
  }

  lemma MessageWritten(a: Apdu)
    ensures var s := ApduBytes(a);
      Overwrite(Overwrite(Zeros(|s| + 2), 0, U16Bytes(|s| % 0x1_0000)), 2, s) == Message(a)
  {
  }

  /** The chunk after its number and a part were written into it: the front is the frame,
      whatever the chunk held behind the header before. */
  lemma ChunkHoldsFrame(chunk: seq<byte>, cseq: u16, part: seq<byte>)
    requires |chunk| == 64 && chunk[..3] == [0x01, 0x01, 0x05] && |part| <= 59
    ensures var c := Overwrite(Overwrite(chunk, 3, U16Bytes(cseq)), 5, part);
      |c| == 64 && c[..3] == [0x01, 0x01, 0x05] && c[..5 + |part|] == Frame(cseq, part)
  {
    var numbered := Overwrite(chunk, 3, U16Bytes(cseq));
    assert numbered[..3] == chunk[..3] && numbered[3..5] == U16Bytes(cseq);
    var c := Overwrite(numbered, 5, part);
    assert c[..3] == chunk[..3] && c[3..5] == U16Bytes(cseq);
    assert c[5..5 + |part|] == part;
    assert c[..5 + |part|] == c[..3] + c[3..5] + c[5..5 + |part|];
  }

  lemma OneMore<T>(before: seq<T>, sent: seq<T>, x: T, rest: seq<T>)
    ensures sent + ([x] + rest) == (sent + [x]) + rest
    ensures before + sent + [x] == before + (sent + [x])
  {
  }

  /** Sends an APDU.  One 64-byte chunk is reused for all frames. */
  method WriteApdu(io: HidppDevice, a: Apdu) returns (n: nat)
    requires io.dev != null
    modifies io.dev`written
    ensures n == 5 + a.payloadSize
    ensures io.dev.written == old(io.dev.written) + Frames(Message(a), 0)
  {
    hide Overwrite, Frame, ApduBytes, Message, Frames;
    var apduData := ToBytes(a);
    MessageWritten(a);
    var chunk := new BytesData(64);
    var _ := chunk.Write(0, U16Bytes(0x0101));
    var _ := chunk.Write(2, [0x05]);

    var buffer := new BytesData(|apduData.data| + 2);
    var _ := buffer.Write(0, U16Bytes(|apduData.data| % 0x1_0000));
    var _ := buffer.Write(2, apduData.data);
    var cseq: u16 := 0;
    ghost var sent: seq<seq<byte>> := [];
    assert sent + Frames(buffer.data, cseq) == Frames(buffer.data, cseq);
    while buffer.data != []
      invariant fresh(buffer) && fresh(chunk) && buffer != chunk
      invariant apduData.data == ApduBytes(a) && apduData != chunk && apduData != buffer
      invariant |chunk.data| == 64 && chunk.data[..3] == [0x01, 0x01, 0x05]
      invariant io.dev.written == old(io.dev.written) + sent
      invariant sent + Frames(buffer.data, cseq) == Frames(Message(a), 0)
      decreases |buffer.data|
    {
      ghost var rest := buffer.data;
      ChunkHoldsFrame(chunk.data, cseq, rest[..Min(|rest|, 59)]);
      FramesFirst(rest, cseq);
      var _ := chunk.Write(3, U16Bytes(cseq));
      var part := buffer.PopFrontTo(5, chunk);
      var toUsb := chunk.data[..5 + part];
      OneMore(old(io.dev.written), sent, toUsb, Frames(buffer.data, Next(cseq)));
      sent := sent + [toUsb];
      cseq := Next(cseq);
      io.Write(toUsb);
    }
    FramesNone(cseq, sent);
    n := |apduData.data|;
  }

  lemma FramesNone(cseq: u16, sent: seq<seq<byte>>)
    ensures sent + Frames([], cseq) == sent
  {
  }

  lemma FramesFirst(message: seq<byte>, cseq: u16)
    requires message != []
    ensures var n := Min(|message|, 59);
      Frames(message, cseq) == [Frame(cseq, message[..n])] + Frames(message[n..], Next(cseq))
  {
  }

  lemma {:induction false} FrameCount(message: seq<byte>, cseq: u16)
    ensures |Frames(message, cseq)| == Ceil(|message|, 59)
    decreases |message|
  {
    if message != [] {
      FrameCount(message[Min(|message|, 59)..], Next(cseq));
    }
  }

  /** The frame with index `k`, in closed form. */
  lemma {:induction false} FrameAt(message: seq<byte>, cseq: nat, k: nat)
    requires 59 * k < |message| && cseq + k < 0x1_0000
    ensures k < |Frames(message, cseq)|
    ensures Frames(message, cseq)[k]
         == Frame(cseq + k, message[59 * k..Min(59 * k + 59, |message|)])
    decreases k
  {
    hide Frame;
    if k > 0 {
      var rest, last := message[59..], Min(59 * k, |message| - 59);
      FrameAt(rest, cseq + 1, k - 1);
      SliceOfRest(message, 59, 59 * (k - 1), last);
      assert Frames(message, cseq)[k] == Frames(rest, cseq + 1)[k - 1];
    }
  }

  /** The framing of every message an exchange can send: how many frames, at most 64 bytes
      each, all full but the last, the fixed header, consecutive numbers, and the message as
      what they carry. */
  lemma WriteFraming(a: Apdu, k: nat)
    requires a.payloadSize <= 255
    ensures var frames := Frames(Message(a), 0);
      |frames| == Ceil(|ApduBytes(a)| + 2, 59) <= 5
    ensures var frames := Frames(Message(a), 0);
      k < |frames| ==>
        && 5 < |frames[k]| <= 64
        && frames[k][..3] == [0x01, 0x01, 0x05]
        && U16At(frames[k], 3) == k
        && 59 * k + |frames[k]| - 5 <= |Message(a)|
        && frames[k][5..] == Message(a)[59 * k..59 * k + |frames[k]| - 5]
        && (k + 1 < |frames| ==> |frames[k]| == 64)
  {
    FrameCount(Message(a), 0);
    if k < Ceil(|Message(a)|, 59) {
      FrameAt(Message(a), 0, k);
    }
  }

  /** The device side of the protocol: frames are accepted in order from number `cseq` on,
      and their parts joined. */
  function Unframe(frames: seq<seq<byte>>, cseq: u16): Option<seq<byte>> {
    if frames == [] then Some([])
    else
      var f := frames[0];
      if |f| < 5 || f[..3] != [0x01, 0x01, 0x05] || U16At(f, 3) != cseq then None
      else
        match Unframe(frames[1..], Next(cseq))
        case None => None
        case Some(rest) => Some(f[5..] + rest)
  }

  /** The device side of the length prefix and of the APDU header. */
  function DeviceParse(frames: seq<seq<byte>>): Option<Command> {
    match Unframe(frames, 0)
    case None => None
    case Some(m) =>
      if |m| < 7 || U16At(m, 0) != |m| - 2 || m[6] != |m| - 7 then None
      else Some(Command(m[2], m[3], m[4], m[5], m[7..]))
  }

  lemma {:induction false} UnframeFrames(message: seq<byte>, cseq: u16)
    ensures Unframe(Frames(message, cseq), cseq) == Some(message)
    decreases |message|
  {
    if message != [] {
      var n := Min(|message|, 59);
      UnframeFrames(message[n..], Next(cseq));
      var frames := Frames(message, cseq);
      assert frames[1..] == Frames(message[n..], Next(cseq));
      assert message == message[..n] + message[n..];
    }
  }

  /** The device recovers the command from the written frames. */
  lemma WriteRoundTrip(a: Apdu)
    requires a.payloadSize <= 255
    ensures DeviceParse(Frames(Message(a), 0)) == Some(CommandOf(a))
  {
    UnframeFrames(Message(a), 0);
    var m := Message(a);
    assert m[2..] == ApduBytes(a) && |m| == 7 + a.payloadSize;
    assert m[2] == a.cla && m[3] == a.ins && m[4] == a.p1 && m[5] == a.p2 && m[6] == a.payloadSize;
    assert m[7..] == a.payload[..a.payloadSize];
  }

  /** So different commands are never framed alike. */
  lemma FramingInjective(a: Apdu, b: Apdu)
    requires a.payloadSize <= 255 && b.payloadSize <= 255
    requires Frames(Message(a), 0) == Frames(Message(b), 0)
    ensures CommandOf(a) == CommandOf(b)
  {
    WriteRoundTrip(a);
    WriteRoundTrip(b);
  }
}
