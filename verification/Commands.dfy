/** The wallet's commands: the APDUs they send and how they read the replies. */
module Commands {
  import opened Bytes
  import opened HidppDevice
  import opened FrameIo
  import opened FrameIoApdu
  import opened Reassembly
  import opened AppList

  const DEVICE_CLASS: byte := 0xe0
  const CMD_GET_VERSION: byte := 0x01
  const CMD_GET_ADDRESS: byte := 0x02
  const CMD_SIGN_TX: byte := 0x04
  const CMD_GET_APP_LIST: byte := 0xde

  function GetAddressApdu(index: u32, silent: bool): Apdu {
    Apdu(DEVICE_CLASS, CMD_GET_ADDRESS, if silent then 1 else 0, 0, 4, U32Bytes(index) + Zeros(251))
  }

  /** Index and hash go into a 36-byte buffer that grows if the hash is longer than 32 bytes;
      36 bytes of it are sent. */
  function SignTxApdu(rawTx: seq<byte>, index: u32): Apdu
    requires |rawTx| <= 251
  {
    var unsignedHash := Overwrite(Overwrite(Zeros(36), 0, U32Bytes(index)), 4, rawTx);
    Apdu(DEVICE_CLASS, CMD_SIGN_TX, 0, 0, 36, unsignedHash + Zeros(255 - |unsignedHash|))
  }

  const GET_VERSION_APDU := Apdu(DEVICE_CLASS, CMD_GET_VERSION, 0, 0, 0, Zeros(255))
  const GET_APP_LIST_APDU := Apdu(DEVICE_CLASS, CMD_GET_APP_LIST, 0, 0, 0, Zeros(255))

  datatype Signature = Signature(r: seq<byte>, s: seq<byte>, v: seq<byte>)

  function DecodeAddress(reply: Reply): Result<seq<byte>> {
    if reply.status != CODE_SUCCESS then Err(ExchangeError(reply.status))
    else if |reply.data| < 20 then Err(OutOfRange)
    else Ok(reply.data[..20])
  }

  /** r and s are at the front, v is the last byte. */
  function DecodeSignature(reply: Reply): Result<Signature> {
    if reply.status != CODE_SUCCESS then Err(ExchangeError(reply.status))
    else if |reply.data| < 64 then Err(OutOfRange)
    else Ok(Signature(reply.data[..32], reply.data[32..64], reply.data[|reply.data| - 1..]))
  }

  /** A byte printed in decimal. */
  function Decimal(n: byte): (s: string)
    ensures 1 <= |s| <= 3 && forall i :: 0 <= i < |s| ==> '0' <= s[i] <= '9'
    ensures |s| > 1 ==> s[0] != '0'
  {
    if n < 10 then [Digit(n)]
    else if n < 100 then [Digit(n / 10), Digit(n % 10)]
    else [Digit(n / 100), Digit(n / 10 % 10), Digit(n % 10)]
  }

  function Digit(n: nat): (c: char)
    requires n < 10
    ensures '0' <= c <= '9' && c as int - '0' as int == n
  {
    '0' + n as char
  }

  function VersionString(major: byte, minor: byte, patch: byte): string {
    Decimal(major) + "." + Decimal(minor) + "." + Decimal(patch)
  }

  function DecodeVersion(reply: Reply): Result<string> {
    if reply.status != CODE_SUCCESS then Err(ExchangeError(reply.status))
    else if |reply.data| < 3 then Err(OutOfRange)
    else Ok(VersionString(reply.data[0], reply.data[1], reply.data[2]))
  }

  function DecodeAppList(reply: Reply): Result<seq<AppItem>> {
    if reply.status != CODE_SUCCESS then Err(ExchangeError(reply.status)) else Parse(reply.data)
  }

  /** Reads a decimal number off the front of a string. */
  function ReadNumber(s: string, acc: nat): (nat, string)
    decreases |s|
  {
    if s != [] && '0' <= s[0] <= '9' then ReadNumber(s[1..], acc * 10 + (s[0] as int - '0' as int))
    else (acc, s)
  }

  lemma ReadDigit(n: nat, rest: string, acc: nat)
    requires n < 10
    ensures ReadNumber([Digit(n)] + rest, acc) == ReadNumber(rest, acc * 10 + n)
  {
    assert ([Digit(n)] + rest)[1..] == rest;
  }

  lemma ReadEnd(rest: string, acc: nat)
    requires rest == [] || !('0' <= rest[0] <= '9')
    ensures ReadNumber(rest, acc) == (acc, rest)
  {
  }

  lemma ReadDecimal(n: byte, rest: string)
    requires rest == [] || !('0' <= rest[0] <= '9')
    ensures ReadNumber(Decimal(n) + rest, 0) == (n, rest)
  {
    hide Digit, ReadNumber;
    ReadEnd(rest, n);
    var ones := [Digit(n % 10)] + rest;
    ReadDigit(n % 10, rest, n / 10);
    if n < 10 {
      assert Decimal(n) + rest == ones;
    } else if n < 100 {
      assert Decimal(n) + rest == [Digit(n / 10)] + ones;
      ReadDigit(n / 10, ones, 0);
    } else {
      var tens := [Digit(n / 10 % 10)] + ones;
      assert Decimal(n) + rest == [Digit(n / 100)] + tens;
      ReadDigit(n / 100, tens, 0);
      ReadDigit(n / 10 % 10, ones, n / 100);
    }
  }

  /** The inverse of VersionString. */
  function ReadVersion(s: string): Option<(nat, nat, nat)> {
    var (major, s1) := ReadNumber(s, 0);
    if s1 == [] || s1[0] != '.' then None
    else
      var (minor, s2) := ReadNumber(s1[1..], 0);
      if s2 == [] || s2[0] != '.' then None
      else
        var (patch, s3) := ReadNumber(s2[1..], 0);
        if s3 == [] then Some((major, minor, patch)) else None
  }

  lemma ReadVersionString(major: byte, minor: byte, patch: byte)
    ensures ReadVersion(VersionString(major, minor, patch)) == Some((major, minor, patch))
  {
    hide ReadNumber, Decimal;
    var s1 := "." + Decimal(minor) + "." + Decimal(patch);
    var s2 := "." + Decimal(patch);
    assert VersionString(major, minor, patch) == Decimal(major) + s1;
    ReadDecimal(major, s1);
    assert s1[1..] == Decimal(minor) + s2;
    ReadDecimal(minor, s2);
    assert s2[1..] == Decimal(patch) + [];
    ReadDecimal(patch, []);
  }

  /** The reply to a command whose response is successful and in the range for these. */
  lemma ExactReply(script: nat -> HidRead, pos: nat, stream: seq<byte>, total: nat)
    requires IsResponse(stream, total) && Delivers(script, pos, stream)
    requires InSuccessRange(CLEAN, total) && U16At(stream, total - 2) == CODE_SUCCESS
    ensures Receive(CLEAN, script, pos)
         == Exchanged(Ok(Reply(stream[2..total - 2], CODE_SUCCESS)), CLEAN, pos + Ceil(total, 64))
  {
    hide Receive, Delivers;
    ExactInSuccessRange(CLEAN, script, pos, stream, total);
    ReceiveIs(CLEAN, script, pos, stream, total);
    Residual(script, pos, stream, total);
  }

  /** Signing, end to end: the device is asked for this index and this hash, and r, s and v
      together are the 65 bytes it sends. */
  lemma SignTxEndToEnd(script: nat -> HidRead, pos: nat, stream: seq<byte>, rawTx: seq<byte>, index: u32)
    requires |rawTx| == 32
    requires IsResponse(stream, 69) && Delivers(script, pos, stream) && U16At(stream, 67) == CODE_SUCCESS
    ensures DeviceParse(Frames(Message(SignTxApdu(rawTx, index)), 0))
         == Some(Command(DEVICE_CLASS, CMD_SIGN_TX, 0, 0, U32Bytes(index) + rawTx))
    ensures var reply := Receive(CLEAN, script, pos).result;
      && reply.Ok?
      && var sig := DecodeSignature(reply.value);
         sig.Ok? && sig.value.r + sig.value.s + sig.value.v == stream[2..67]
         && |sig.value.r| == |sig.value.s| == 32 && |sig.value.v| == 1
  {
    hide Receive, Message, Frames, DeviceParse, Delivers, ReadVersion, VersionString;
    ExactReply(script, pos, stream, 69);
    var data := stream[2..67];
    assert data == data[..32] + data[32..64] + data[64..];
    WriteRoundTrip(SignTxApdu(rawTx, index));
    SignTxPayload(rawTx, index);
  }

  lemma SignTxPayload(rawTx: seq<byte>, index: u32)
    requires |rawTx| == 32
    ensures SignTxApdu(rawTx, index).payload[..36] == U32Bytes(index) + rawTx
  {
    var unsignedHash := Overwrite(Overwrite(Zeros(36), 0, U32Bytes(index)), 4, rawTx);
    assert unsignedHash == U32Bytes(index) + rawTx;
  }

  /** What the device is asked, byte for byte: the class, the instruction, p1, p2, and the index as
      four bytes, the most significant first.  Of a hash that is not 32 bytes long the front is
      sent, or zeros behind it. */
  lemma CommandsSent(rawTx: seq<byte>, i0: byte, i1: byte, i2: byte, i3: byte, silent: bool)
    requires |rawTx| <= 251
    ensures var index := 0x100_0000 * (i0 as int) + 0x1_0000 * (i1 as int) + 0x100 * (i2 as int) + i3;
      && DeviceParse(Frames(Message(SignTxApdu(rawTx, index)), 0))
         == Some(Command(0xe0, 0x04, 0, 0, [i0, i1, i2, i3] + (rawTx + Zeros(32))[..32]))
      && DeviceParse(Frames(Message(GetAddressApdu(index, silent)), 0))
         == Some(Command(0xe0, 0x02, if silent then 1 else 0, 0, [i0, i1, i2, i3]))
    ensures DeviceParse(Frames(Message(GET_VERSION_APDU), 0)) == Some(Command(0xe0, 0x01, 0, 0, []))
    ensures DeviceParse(Frames(Message(GET_APP_LIST_APDU), 0)) == Some(Command(0xe0, 0xde, 0, 0, []))
  {
    hide Message, Frames, DeviceParse, U32Bytes, SignTxApdu;
    var index := 0x100_0000 * (i0 as int) + 0x1_0000 * (i1 as int) + 0x100 * (i2 as int) + i3;
    IndexBytes(i0, i1, i2, i3);
    SignTxSends(rawTx, index);
    WriteRoundTrip(SignTxApdu(rawTx, index));
    WriteRoundTrip(GetAddressApdu(index, silent));
    assert GetAddressApdu(index, silent).payload[..4] == U32Bytes(index);
    WriteRoundTrip(GET_VERSION_APDU);
    WriteRoundTrip(GET_APP_LIST_APDU);
  }

  lemma IndexBytes(i0: byte, i1: byte, i2: byte, i3: byte)
    ensures U32Bytes(0x100_0000 * (i0 as int) + 0x1_0000 * (i1 as int) + 0x100 * (i2 as int) + i3) == [i0, i1, i2, i3]
  {
    var s := [i0, i1, i2, i3];
    U32AtBytes(s, 0);
    assert s[0..4] == s;
  }

  lemma SignTxSends(rawTx: seq<byte>, index: u32)
    requires |rawTx| <= 251
    ensures var a := SignTxApdu(rawTx, index);
      && a.cla == DEVICE_CLASS && a.ins == CMD_SIGN_TX && a.p1 == a.p2 == 0 && a.payloadSize == 36
      && a.payload[..36] == U32Bytes(index) + (rawTx + Zeros(32))[..32]
  {
    hide U32Bytes;
    var unsignedHash := Overwrite(Overwrite(Zeros(36), 0, U32Bytes(index)), 4, rawTx);
    assert unsignedHash[..36] == U32Bytes(index) + (rawTx + Zeros(32))[..32];
  }

  /** The one frame of get_app_version: channel, tag, number, length, and the APDU. */
  lemma VersionFrame()
    ensures Frames(Message(GET_VERSION_APDU), 0)
         == [[0x01, 0x01, 0x05, 0x00, 0x00, 0x00, 0x05, 0xe0, 0x01, 0x00, 0x00, 0x00]]
  {
    var m: seq<byte> := [0x00, 0x05, 0xe0, 0x01, 0x00, 0x00, 0x00];
    assert Message(GET_VERSION_APDU) == m;
    FramesFirst(m, 0);
    assert m[..7] == m && m[7..] == [];
    assert Frames([], 1) == [];
    var f: seq<byte> := [0x01, 0x01, 0x05, 0x00, 0x00, 0x00, 0x05, 0xe0, 0x01, 0x00, 0x00, 0x00];
    assert Frame(0, m) == f;
    assert Frames(m, 0) == [f];
  }

  lemma GetAddressEndToEnd(script: nat -> HidRead, pos: nat, stream: seq<byte>, index: u32, silent: bool)
    requires IsResponse(stream, 24) && Delivers(script, pos, stream) && U16At(stream, 22) == CODE_SUCCESS
    ensures DeviceParse(Frames(Message(GetAddressApdu(index, silent)), 0))
         == Some(Command(DEVICE_CLASS, CMD_GET_ADDRESS, if silent then 1 else 0, 0, U32Bytes(index)))
    ensures var reply := Receive(CLEAN, script, pos).result;
      reply.Ok? && DecodeAddress(reply.value) == Ok(stream[2..22])
  {
    hide Receive, Message, Frames, DeviceParse, Delivers, ReadVersion, VersionString;
    ExactReply(script, pos, stream, 24);
    assert stream[2..22][..20] == stream[2..22];
    WriteRoundTrip(GetAddressApdu(index, silent));
    assert GetAddressApdu(index, silent).payload[..4] == U32Bytes(index);
  }

  lemma GetVersionEndToEnd(script: nat -> HidRead, pos: nat, stream: seq<byte>)
    requires IsResponse(stream, 7) && Delivers(script, pos, stream) && U16At(stream, 5) == CODE_SUCCESS
    ensures DeviceParse(Frames(Message(GET_VERSION_APDU), 0))
         == Some(Command(DEVICE_CLASS, CMD_GET_VERSION, 0, 0, []))
    ensures var reply := Receive(CLEAN, script, pos).result;
      && reply.Ok?
      && var version := DecodeVersion(reply.value);
         version.Ok? && ReadVersion(version.value) == Some((stream[2], stream[3], stream[4]))
  {
    hide Receive, Message, Frames, DeviceParse, Delivers, ReadVersion, VersionString;
    ExactReply(script, pos, stream, 7);
    WriteRoundTrip(GET_VERSION_APDU);
    ReadVersionString(stream[2], stream[3], stream[4]);
  }
}
