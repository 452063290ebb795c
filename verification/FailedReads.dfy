/** Reads that fail in the middle of a response: what one read does, byte for byte; what any
    mixture of reads leaves in the output buffer; and when the response still comes out right. */
module FailedReads {
  import opened Bytes
  import opened HidppDevice
  import opened FrameIo
  import opened FrameIoApdu
  import opened ReadCounters
  import opened Reassembly

  /** A read whose result is not 64, or after which hid_error reports something, counts for five
      bytes and changes nothing else, the output buffer included. */
  lemma FailedRead(p: Progress, script: nat -> HidRead)
    requires p.c.Valid() && (script(p.pos).error || script(p.pos).res != 64)
    ensures ReadStep(p, script) == Going(p.(c := p.c.(rn := p.c.rn + 5), pos := p.pos + 1))
  {
  }

  /** A full block is looked at in this order: channel, tag, number.  What is not accepted changes
      neither counters nor output. */
  lemma FullRead(p: Progress, script: nat -> HidRead)
    requires p.c.Valid() && !script(p.pos).error && script(p.pos).res == 64
    ensures var b := script(p.pos).block;
      var given := 0x100 * (b[3] as int) + b[4];
      var s := ReadStep(p, script);
      if b[0] != 1 || b[1] != 1 then
        s == Thrown(p.(pos := p.pos + 1), BadChannel(0x100 * (b[0] as int) + b[1]))
      else if b[2] != 5 then s == Thrown(p.(pos := p.pos + 1), BadTag(b[2]))
      else if given != p.c.cseq then s == Thrown(p.(pos := p.pos + 1), WrongSeqno(p.c.cseq, given))
      else
        && s.Going? && s.p.pos == p.pos + 1
        && s.p.c == Counters((p.c.cseq + 1) % 0x1_0000, p.c.offset + 64, p.c.rn + 64)
        && s.p.out == Overwrite(p.out, if p.c.cseq == 0 then 0 else p.c.offset - 5, b[5..])
  {
    hide Overwrite;
  }

  /** What an exchange makes of its first read, if that alone decides: a block from another channel
      or with another tag, or an announced length that leaves no room for a status. */
  lemma FirstBlock(c0: Counters, script: nat -> HidRead, pos: nat)
    requires !script(pos).error && script(pos).res == 64
    ensures var b := script(pos).block;
      var length := 0x100 * (b[5] as int) + b[6];
      var r := Receive(c0, script, pos).result;
      if b[0] != 1 || b[1] != 1 then r == Err(BadChannel(0x100 * (b[0] as int) + b[1]))
      else if b[2] != 5 then r == Err(BadTag(b[2]))
      else if b[3] != 0 || b[4] != 0 then r == Err(WrongSeqno(0, 0x100 * (b[3] as int) + b[4]))
      else
        && (length >= 0xFFFE ==> r == Ok(Reply([], 0x9001)))
        && (length <= 1 ==> r == Err(OutOfRange))
  {
    hide Overwrite, ReadStep, Inspect;
    var b := script(pos).block;
    FullRead(Start(c0, pos), script);
    if ReadStep(Start(c0, pos), script).Going? {
      var out := ReadStep(Start(c0, pos), script).p.out;
      assert out[0] == b[5] && out[1] == b[6];
    }
  }

  /** The parts of the full blocks among `n` reads, joined. */
  function Parts(script: nat -> HidRead, pos: nat, n: nat): seq<byte> {
    if n == 0 then []
    else Parts(script, pos, n - 1) + if IsFull(script(pos + n - 1)) then script(pos + n - 1).block[5..] else []
  }

  lemma {:induction false} FullNext(script: nat -> HidRead, pos: nat, n: nat)
    ensures Full(script, pos, n + 1) == Full(script, pos, n) + if IsFull(script(pos + n)) then 1 else 0
    decreases n
  {
    if n == 0 {
      assert Full(script, pos, 1) == if IsFull(script(pos)) then 1 else 0;
    } else {
      FullNext(script, pos + 1, n - 1);
      assert pos + 1 + (n - 1) == pos + n;
    }
  }

  lemma {:induction false} FullMonotone(script: nat -> HidRead, pos: nat, i: nat, n: nat)
    requires i <= n
    ensures Full(script, pos, i) <= Full(script, pos, n) <= Full(script, pos, i) + (n - i)
    decreases n - i
  {
    if i < n {
      FullNext(script, pos, n - 1);
      FullMonotone(script, pos, i, n - 1);
    }
  }

  lemma {:induction false} PartsLength(script: nat -> HidRead, pos: nat, n: nat)
    ensures |Parts(script, pos, n)| == 59 * Full(script, pos, n)
    decreases n
  {
    if n > 0 {
      PartsLength(script, pos, n - 1);
      FullNext(script, pos, n - 1);
    }
  }

  /** Counters, buffer and position after `n` reads of an exchange that began with `c0`. */
  function StateAfter(c0: Counters, script: nat -> HidRead, pos: nat, n: nat): Progress {
    PartsLength(script, pos, n);
    Progress(Advanced(c0.(cseq := 0), script, pos, n),
             Assembled(Parts(script, pos, n), c0.offset, Full(script, pos, n)),
             pos + n)
  }

  lemma {:induction false} AssembledPrefix(a: seq<byte>, b: seq<byte>, offset0: nat, g: nat)
    requires 59 * g <= |a| && a <= b
    ensures Assembled(a, offset0, g) == Assembled(b, offset0, g)
  {
    if g > 0 {
      hide Overwrite;
      AssembledPrefix(a, b, offset0, g - 1);
      assert a[59 * (g - 1)..59 * (g - 1) + 59] == b[59 * (g - 1)..59 * (g - 1) + 59];
    }
  }

  lemma OrderAt(script: nat -> HidRead, pos: nat, n: nat, i: nat)
    requires InOrder(script, pos, n, 0) && i < n
    ensures IsFull(script(pos + i)) ==>
      && script(pos + i).block[..3] == [0x01, 0x01, 0x05]
      && U16At(script(pos + i).block, 3) == Full(script, pos, i) % 0x1_0000
  {
    assert InOrderAt(script, pos, i, 0);
  }

  lemma AssembledNext(before: seq<byte>, part: seq<byte>, offset0: nat, g: nat)
    requires |before| == 59 * g && |part| == 59
    ensures Assembled(before + part, offset0, g + 1)
         == Overwrite(Assembled(before, offset0, g), if g == 0 then 0 else offset0 + 64 * g - 5, part)
  {
    hide Overwrite;
    AssembledPrefix(before, before + part, offset0, g);
    assert (before + part)[59 * g..59 * g + 59] == part;
  }

  lemma HeaderBytes(b: Block, g: nat)
    requires b[..3] == [0x01, 0x01, 0x05] && U16At(b, 3) == g
    ensures b[0] == 1 && b[1] == 1 && b[2] == 5 && 0x100 * (b[3] as int) + b[4] == g
  {
    assert b[..3][0] == 1 && b[..3][1] == 1 && b[..3][2] == 5;
  }

  /** One more read, if it is full. */
  lemma GoodAfter(c0: Counters, script: nat -> HidRead, pos: nat, n: nat)
    requires InOrder(script, pos, n + 1, 0) && n < 0xFFFF && IsFull(script(pos + n))
    ensures StateAfter(c0, script, pos, n).c.Valid()
    ensures ReadStep(StateAfter(c0, script, pos, n), script) == Going(StateAfter(c0, script, pos, n + 1))
  {
    hide InOrder, Overwrite, ReadStep, Full, Assembled, U16At;
    var p, b, g := StateAfter(c0, script, pos, n), script(pos + n).block, Full(script, pos, n);
    var before := Parts(script, pos, n);
    FullNext(script, pos, n);
    FullMonotone(script, pos, 0, n);
    PartsLength(script, pos, n);
    OrderAt(script, pos, n + 1, n);
    HeaderBytes(b, g);
    FullRead(p, script);
    assert Parts(script, pos, n + 1) == before + b[5..];
    AssembledNext(before, b[5..], c0.offset, g);
  }

  lemma StepAfter(c0: Counters, script: nat -> HidRead, pos: nat, n: nat)
    requires InOrder(script, pos, n + 1, 0) && n < 0xFFFF
    ensures StateAfter(c0, script, pos, n).c.Valid()
    ensures ReadStep(StateAfter(c0, script, pos, n), script) == Going(StateAfter(c0, script, pos, n + 1))
  {
    hide InOrder, ReadStep, Assembled, Full;
    if IsFull(script(pos + n)) {
      GoodAfter(c0, script, pos, n);
    } else {
      FullNext(script, pos, n);
      FullMonotone(script, pos, 0, n);
      assert Parts(script, pos, n + 1) == Parts(script, pos, n);
      FailedRead(StateAfter(c0, script, pos, n), script);
    }
  }

  /** For every script: the loop leaves the buffer that the good frames make, in order, whatever
      reads failed in between. */
  lemma {:induction false} LoopBuffer(c0: Counters, script: nat -> HidRead, pos: nat, respLen: u16, n: nat)
    requires InOrder(script, pos, n, 0) && n > 0
    requires n > 1 ==> Advanced(c0.(cseq := 0), script, pos, n - 1).rn < respLen
    ensures StateAfter(c0, script, pos, n).c.Valid()
    ensures var s := ReadLoop(StateAfter(c0, script, pos, n), respLen, script);
      var m := Quiet(pos, s);
      && n <= m && InOrder(script, pos, m, 0)
      && s.p == StateAfter(c0, script, pos, m).(pos := s.p.pos)
      && (s.Going? ==> StateAfter(c0, script, pos, m).c.rn >= respLen)
      && (forall k :: n <= k < m ==> StateAfter(c0, script, pos, k).c.rn < respLen)
    decreases respLen - StateAfter(c0, script, pos, n).c.rn
  {
    hide InOrder, Overwrite, ReadStep, Parts, Assembled, Full;
    var p := StateAfter(c0, script, pos, n);
    assert n <= 0x3334;
    assert p.c.Valid();
    if p.c.rn < respLen {
      OneRead(p, script);
      if ReadStep(p, script).Going? {
        ReadGoodNext(c0, script, pos, n);
        StepAfter(c0, script, pos, n);
        LoopBuffer(c0, script, pos, respLen, n + 1);
      }
    }
  }

  lemma ReadGoodNext(c0: Counters, script: nat -> HidRead, pos: nat, n: nat)
    requires InOrder(script, pos, n, 0)
    requires StateAfter(c0, script, pos, n).c.Valid()
    requires ReadStep(StateAfter(c0, script, pos, n), script).Going?
    ensures InOrder(script, pos, n + 1, 0)
  {
    hide Parts, Assembled;
    var p := StateAfter(c0, script, pos, n);
    OneRead(p, script);
    assert InOrderAt(script, pos + n, 0, p.c.cseq);
    assert Full(script, pos + n, 0) == 0;
    forall i: nat | i < n + 1 ensures InOrderAt(script, pos, i, 0) {
      if i < n {
        assert InOrderAt(script, pos, i, 0);
      }
    }
  }

  /** Among the reads from `pos` on the full blocks are the frames of `stream`, as far as it goes. */
  ghost predicate DeliversAmid(script: nat -> HidRead, pos: nat, stream: seq<byte>) {
    && |stream| % 59 == 0
    && forall k: nat :: FrameAmid(script, pos, stream, k)
  }

  predicate FrameAmid(script: nat -> HidRead, pos: nat, stream: seq<byte>, k: nat) {
    var g := Full(script, pos, k);
    IsFull(script(pos + k)) && 59 * g + 59 <= |stream| ==>
      script(pos + k).block == Frame(g % 0x1_0000, stream[59 * g..59 * g + 59])
  }

  lemma {:induction false} PartsAmid(script: nat -> HidRead, pos: nat, stream: seq<byte>, n: nat)
    requires DeliversAmid(script, pos, stream) && 59 * Full(script, pos, n) <= |stream|
    ensures InOrder(script, pos, n, 0) && Parts(script, pos, n) == stream[..59 * Full(script, pos, n)]
    decreases n
  {
    if n > 0 {
      hide InOrder;
      FullNext(script, pos, n - 1);
      PartsAmid(script, pos, stream, n - 1);
      var g, r := Full(script, pos, n - 1), script(pos + n - 1);
      assert pos + n - 1 == pos + (n - 1);
      assert FrameAmid(script, pos, stream, n - 1);
      if IsFull(r) {
        assert r.block[5..] == stream[59 * g..59 * g + 59];
        assert stream[..59 * g] + stream[59 * g..59 * g + 59] == stream[..59 * g + 59];
        FrameHeader(g % 0x1_0000, stream[59 * g..59 * g + 59]);
      }
      OrderNext(script, pos, n - 1);
    }
  }

  lemma FrameHeader(cseq: u16, part: seq<byte>)
    ensures var f := Frame(cseq, part); f[..3] == [0x01, 0x01, 0x05] && U16At(f, 3) == cseq
  {
  }

  lemma OrderNext(script: nat -> HidRead, pos: nat, n: nat)
    requires InOrder(script, pos, n, 0)
    requires IsFull(script(pos + n)) ==>
      && script(pos + n).block[..3] == [0x01, 0x01, 0x05]
      && U16At(script(pos + n).block, 3) == Full(script, pos, n) % 0x1_0000
    ensures InOrder(script, pos, n + 1, 0)
  {
    forall i: nat | i < n + 1 ensures InOrderAt(script, pos, i, 0) {
      if i < n {
        assert InOrderAt(script, pos, i, 0);
      }
    }
  }

  /** `rn` after `n` reads. */
  function RnAfter(rn0: nat, script: nat -> HidRead, pos: nat, n: nat): nat {
    rn0 + 64 * Full(script, pos, n) + 5 * (n - Full(script, pos, n))
  }

  /** The exchange makes `n` reads: `rn` reaches the total with the last one and not before. */
  ghost predicate ReadsMade(rn0: nat, script: nat -> HidRead, pos: nat, total: nat, n: nat) {
    && n > 0 && RnAfter(rn0, script, pos, n) >= total
    && forall k :: 1 <= k < n ==> RnAfter(rn0, script, pos, k) < total
  }

  /** The frames sent are enough for the reads made. */
  lemma StreamSuffices(rn0: nat, script: nat -> HidRead, pos: nat, stream: seq<byte>, total: nat, n: nat)
    requires IsResponse(stream, total) && (n > 1 ==> RnAfter(rn0, script, pos, n - 1) < total)
    ensures 59 * Full(script, pos, n) <= |stream|
  {
    if n > 0 {
      FullNext(script, pos, n - 1);
    }
    if n <= 1 {
      FullMonotone(script, pos, 0, n);
    }
  }

  lemma FirstAmid(c0: Counters, script: nat -> HidRead, pos: nat, stream: seq<byte>, total: nat)
    requires IsResponse(stream, total) && DeliversAmid(script, pos, stream) && IsFull(script(pos))
    ensures ReadStep(Start(c0, pos), script) == Going(StateAfter(c0, script, pos, 1))
    ensures |StateAfter(c0, script, pos, 1).out| >= 2
    ensures ResponseLength(StateAfter(c0, script, pos, 1).out) == total
    ensures InOrder(script, pos, 1, 0)
  {
    hide ReadStep, Overwrite, ResponseLength, InOrder;
    StreamSuffices(c0.rn, script, pos, stream, total, 1);
    PartsAmid(script, pos, stream, 1);
    StepAfter(c0, script, pos, 0);
    assert StateAfter(c0, script, pos, 0) == Start(c0, pos);
    FullNext(script, pos, 0);
    FirstLength(stream, total, Parts(script, pos, 1), c0.offset);
  }

  lemma FirstLength(stream: seq<byte>, total: nat, part: seq<byte>, offset0: nat)
    requires IsResponse(stream, total) && part == stream[..59]
    ensures var out := Assembled(part, offset0, 1); |out| >= 2 && ResponseLength(out) == total
  {
    AssembledIs(part, offset0, 1);
    var out := Assembled(part, offset0, 1);
    assert out[0] == stream[0] && out[1] == stream[1];
  }

  lemma {:induction false} LoopAmid(c0: Counters, script: nat -> HidRead, pos: nat, stream: seq<byte>,
                                    total: nat, n: nat)
    returns (m: nat)
    requires IsResponse(stream, total) && DeliversAmid(script, pos, stream) && n > 0
    requires forall k :: 1 <= k < n ==> RnAfter(c0.rn, script, pos, k) < total
    ensures StateAfter(c0, script, pos, n).c.Valid() && ReadsMade(c0.rn, script, pos, total, m)
    ensures ReadLoop(StateAfter(c0, script, pos, n), total, script) == Going(StateAfter(c0, script, pos, m))
    decreases total - RnAfter(c0.rn, script, pos, n)
  {
    hide ReadStep, InOrder, Assembled, Parts, DeliversAmid, IsResponse, Full;
    StreamSuffices(c0.rn, script, pos, stream, total, n);
    PartsAmid(script, pos, stream, n);
    FullMonotone(script, pos, 0, n);
    FewReads(c0, script, pos, stream, total, n);
    if RnAfter(c0.rn, script, pos, n) >= total {
      m := n;
    } else {
      StreamSuffices(c0.rn, script, pos, stream, total, n + 1);
      PartsAmid(script, pos, stream, n + 1);
      StepAfter(c0, script, pos, n);
      FullNext(script, pos, n);
      m := LoopAmid(c0, script, pos, stream, total, n + 1);
    }
  }

  lemma FewReads(c0: Counters, script: nat -> HidRead, pos: nat, stream: seq<byte>, total: nat, n: nat)
    requires IsResponse(stream, total) && n > 0
    requires n > 1 ==> RnAfter(c0.rn, script, pos, n - 1) < total
    ensures n <= 0x3334 && StateAfter(c0, script, pos, n).c.Valid()
  {
    hide Assembled;
    assert 5 * (n - 1) < 0xFFFF;
  }

  /** The exchange in closed form, whatever reads fail behind the first one. */
  lemma ReceiveAmid(c0: Counters, script: nat -> HidRead, pos: nat, stream: seq<byte>, total: nat)
    returns (n: nat)
    requires IsResponse(stream, total) && DeliversAmid(script, pos, stream) && IsFull(script(pos))
    ensures ReadsMade(c0.rn, script, pos, total, n)
    ensures var g := Full(script, pos, n);
      && 59 * g <= |stream|
      && var result := Split(Assembled(stream, c0.offset, g), total);
         Receive(c0, script, pos)
         == Exchanged(result, if result.Ok? then CLEAN else Advanced(c0.(cseq := 0), script, pos, n), pos + n)
  {
    hide ReadStep, ReadLoop, ResponseLength, Split, InOrder, Assembled, Parts, DeliversAmid;
    FirstAmid(c0, script, pos, stream, total);
    n := LoopAmid(c0, script, pos, stream, total, 1);
    StreamSuffices(c0.rn, script, pos, stream, total, n);
    PartsAmid(script, pos, stream, n);
    AssembledPrefix(Parts(script, pos, n), stream, c0.offset, Full(script, pos, n));
  }

  /** The second frame is read, because `rn` has not reached the total before, although each
      failed read in between has added five. */
  ghost predicate SecondInTime(rn0: nat, script: nat -> HidRead, pos: nat, total: nat) {
    exists j: nat :: SecondAt(rn0, script, pos, total, j)
  }

  predicate FailedAt(script: nat -> HidRead, pos: nat, i: nat) {
    !IsFull(script(pos + i))
  }

  /** The reads behind the first one fail, up to number `j`. */
  predicate FailuresUpTo(script: nat -> HidRead, pos: nat, j: nat) {
    forall i: nat :: 1 <= i < j ==> FailedAt(script, pos, i)
  }

  ghost predicate SecondAt(rn0: nat, script: nat -> HidRead, pos: nat, total: nat, j: nat) {
    && j > 0 && IsFull(script(pos + j))
    && FailuresUpTo(script, pos, j)
    && rn0 + 64 + 5 * (j - 1) < total
  }

  lemma {:induction false} OnlyFirst(script: nat -> HidRead, pos: nat, j: nat)
    requires j > 0 && IsFull(script(pos)) && FailuresUpTo(script, pos, j)
    ensures Full(script, pos, j) == 1
    decreases j
  {
    FullNext(script, pos, j - 1);
    if j > 1 {
      assert FailedAt(script, pos, j - 1);
      OnlyFirst(script, pos, j - 1);
    }
  }

  /** Where the frame number 1 is read, if two are. */
  lemma {:induction false} SecondExists(script: nat -> HidRead, pos: nat, n: nat) returns (j: nat)
    requires IsFull(script(pos)) && Full(script, pos, n) >= 2
    ensures 1 <= j < n && IsFull(script(pos + j)) && FailuresUpTo(script, pos, j)
    decreases n
  {
    FullNext(script, pos, n - 1);
    if Full(script, pos, n - 1) >= 2 {
      j := SecondExists(script, pos, n - 1);
    } else {
      j := n - 1;
      FullMonotone(script, pos, 0, 1);
      FullNext(script, pos, 0);
      forall i: nat | 1 <= i < j ensures FailedAt(script, pos, i) {
        FullNext(script, pos, i);
        FullMonotone(script, pos, 1, i);
        FullMonotone(script, pos, i + 1, j);
      }
    }
  }

  /** How many frames a short response is put together from. */
  lemma FramesTaken(rn0: nat, script: nat -> HidRead, pos: nat, total: nat, n: nat)
    requires IsFull(script(pos)) && ReadsMade(rn0, script, pos, total, n) && total <= 128
    ensures 1 <= Full(script, pos, n) <= 2
    ensures Full(script, pos, n) == 2 <==> SecondInTime(rn0, script, pos, total)
  {
    hide Full;
    FullNext(script, pos, 0);
    FullMonotone(script, pos, 0, 1);
    FullMonotone(script, pos, 1, n);
    FullNext(script, pos, n - 1);
    if Full(script, pos, n) >= 2 {
      var j := SecondExists(script, pos, n);
      OnlyFirst(script, pos, j);
      assert SecondAt(rn0, script, pos, total, j);
    }
    if j: nat :| SecondAt(rn0, script, pos, total, j) {
      OnlyFirst(script, pos, j);
      FullNext(script, pos, j);
      if n <= j {
        OnlyFirst(script, pos, n);
        assert false;
      }
      assert RnAfter(rn0, script, pos, j + 1) >= 128;
      assert n == j + 1;
    }
  }

  /** The reply of an undisturbed exchange, in the range. */
  lemma RightCells(stream: seq<byte>, offset0: nat, g: nat, total: nat)
    requires 4 <= total && 59 * g <= |stream| && g > 0
    requires total <= 59 || (offset0 == 0 && g == 2 && total <= 118)
    ensures total <= AssembledLength(offset0, g)
    ensures forall i :: 2 <= i < total ==> Cell(stream, offset0, g, i) == stream[i]
  {
  }

  lemma SplitIs(stream: seq<byte>, offset0: nat, g: nat, total: u16)
    requires 4 <= total <= |stream| && 59 * g <= |stream|
    ensures Split(Assembled(stream, offset0, g), total) == Expected(stream, total) <==>
      && total <= AssembledLength(offset0, g)
      && forall i :: 2 <= i < total ==> Cell(stream, offset0, g, i) == stream[i]
  {
    hide Assembled, Split, Cell, AssembledLength, Expected;
    AssembledIs(stream, offset0, g);
    SplitExact(Assembled(stream, offset0, g), stream, total);
  }

  /** A response in the range comes out right, whatever the content, if the first read is good and
      the second frame, where it is needed, is read in time. */
  lemma ExactAmidFailures(c0: Counters, script: nat -> HidRead, pos: nat, stream: seq<byte>, total: nat)
    requires IsResponse(stream, total) && DeliversAmid(script, pos, stream) && IsFull(script(pos))
    requires total <= 59 || (c0.offset == 0 && total <= 118 && SecondInTime(c0.rn, script, pos, total))
    ensures Receive(c0, script, pos).result == Expected(stream, total)
  {
    hide Receive, DeliversAmid, Assembled, Split, Cell, AssembledLength, Expected, SecondInTime, Full;
    var n := ReceiveAmid(c0, script, pos, stream, total);
    var g := Full(script, pos, n);
    FramesTaken(c0.rn, script, pos, total, n);
    RightCells(stream, c0.offset, g, total);
    SplitIs(stream, c0.offset, g, total);
  }

  /** The device whose reads fail where those of `pattern` do, and which sends the frames of
      `stream` in the others. */
  function Amid(stream: seq<byte>, pattern: nat -> HidRead): nat -> HidRead {
    (k: nat) =>
      var g := Full(pattern, 0, k);
      if IsFull(pattern(k)) && 59 * g + 59 <= |stream| then GoodRead(g, stream[59 * g..59 * g + 59])
      else pattern(k)
  }

  lemma {:induction false} FullSame(a: nat -> HidRead, b: nat -> HidRead, pos: nat, n: nat)
    requires forall k: nat :: IsFull(a(k)) <==> IsFull(b(k))
    ensures Full(a, pos, n) == Full(b, pos, n)
    decreases n
  {
    if n > 0 {
      FullSame(a, b, pos + 1, n - 1);
    }
  }

  lemma AmidDelivers(stream: seq<byte>, pattern: nat -> HidRead)
    requires |stream| % 59 == 0
    ensures forall k: nat :: IsFull(Amid(stream, pattern)(k)) <==> IsFull(pattern(k))
    ensures DeliversAmid(Amid(stream, pattern), 0, stream)
  {
    var script := Amid(stream, pattern);
    forall k: nat ensures FrameAmid(script, 0, stream, k) {
      FullSame(script, pattern, 0, k);
    }
  }

  ghost predicate ExactAmid(c0: Counters, pattern: nat -> HidRead, total: nat) {
    forall stream {:trigger Amid(stream, pattern)} :: IsResponse(stream, total) ==>
      Receive(c0, Amid(stream, pattern), 0).result == Expected(stream, total)
  }

  /** Nothing comes out right if the first read fails: a length is read from a buffer of zeros. */
  lemma FirstFails(c0: Counters, script: nat -> HidRead, pos: nat)
    requires !IsFull(script(pos))
    ensures Receive(c0, script, pos) == Exchanged(Err(OutOfRange), Counters(0, c0.offset, c0.rn + 5), pos + 1)
  {
    assert ReadOnce(c0.(cseq := 0), Zeros(255), script(pos)).r == Ok(0);
  }

  lemma WrongAmid(c0: Counters, script: nat -> HidRead, total: nat)
    requires 4 <= total <= 0xFFFF && DeliversAmid(script, 0, Ones(total)) && IsFull(script(0)) && total > 59
    requires c0.offset > 0 || total > 118 || !SecondInTime(c0.rn, script, 0, total)
    ensures Receive(c0, script, 0).result != Expected(Ones(total), total)
  {
    hide Receive, DeliversAmid, Assembled, Split, AssembledLength, Expected, SecondInTime, Full;
    var stream := Ones(total);
    var n := ReceiveAmid(c0, script, 0, stream, total);
    var g := Full(script, 0, n);
    if total <= 118 {
      FramesTaken(c0.rn, script, 0, total, n);
    }
    var i := if c0.offset > 0 || total <= 118 then 59 else 118;
    assert Cell(stream, c0.offset, g, i) == 0 != stream[i];
    SplitIs(stream, c0.offset, g, total);
  }

  /** With reads that fail here and there, reassembly is right for every content exactly if the
      first read is good, and the response has one frame, or two and the second one is read in
      time. */
  lemma ExactAmidRange(c0: Counters, pattern: nat -> HidRead, total: nat)
    requires 4 <= total <= 0xFFFF
    ensures ExactAmid(c0, pattern, total) <==>
      && IsFull(pattern(0))
      && (total <= 59 || (c0.offset == 0 && total <= 118 && SecondInTime(c0.rn, pattern, 0, total)))
  {
    hide Receive, Amid, DeliversAmid, Expected, Ones, Full;
    forall stream | IsResponse(stream, total)
      ensures DeliversAmid(Amid(stream, pattern), 0, stream)
      ensures IsFull(Amid(stream, pattern)(0)) <==> IsFull(pattern(0))
      ensures SecondInTime(c0.rn, Amid(stream, pattern), 0, total) <==> SecondInTime(c0.rn, pattern, 0, total)
    {
      AmidDelivers(stream, pattern);
      SecondSame(c0.rn, Amid(stream, pattern), pattern, total);
    }
    if IsFull(pattern(0))
       && (total <= 59 || (c0.offset == 0 && total <= 118 && SecondInTime(c0.rn, pattern, 0, total))) {
      forall stream | IsResponse(stream, total)
        ensures Receive(c0, Amid(stream, pattern), 0).result == Expected(stream, total)
      {
        ExactAmidFailures(c0, Amid(stream, pattern), 0, stream, total);
      }
    } else {
      var stream := Ones(total);
      if IsFull(pattern(0)) {
        WrongAmid(c0, Amid(stream, pattern), total);
      } else {
        FirstFails(c0, Amid(stream, pattern), 0);
        ExpectedOk(stream, total);
      }
    }
  }

  lemma FailuresSame(a: nat -> HidRead, b: nat -> HidRead, j: nat)
    requires forall k: nat :: IsFull(a(k)) <==> IsFull(b(k))
    requires FailuresUpTo(a, 0, j)
    ensures FailuresUpTo(b, 0, j)
  {
    forall i: nat | 1 <= i < j ensures FailedAt(b, 0, i) {
      assert FailedAt(a, 0, i);
    }
  }

  lemma SecondSame(rn0: nat, a: nat -> HidRead, b: nat -> HidRead, total: nat)
    requires forall k: nat :: IsFull(a(k)) <==> IsFull(b(k))
    ensures SecondInTime(rn0, a, 0, total) <==> SecondInTime(rn0, b, 0, total)
  {
    if j: nat :| SecondAt(rn0, a, 0, total, j) {
      FailuresSame(a, b, j);
      assert SecondAt(rn0, b, 0, total, j);
    }
    if j: nat :| SecondAt(rn0, b, 0, total, j) {
      FailuresSame(b, a, j);
      assert SecondAt(rn0, a, 0, total, j);
    }
  }

  lemma ExpectedOk(stream: seq<byte>, total: nat)
    requires IsResponse(stream, total)
    ensures Expected(stream, total).Ok?
  {
  }
}
