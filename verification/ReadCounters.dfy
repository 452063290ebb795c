/** What the three counters of an exchange say, for every device behaviour: any mixture of good
    frames, failed reads and rejected frames. */
module ReadCounters {
  import opened Bytes
  import opened HidppDevice
  import opened FrameIo
  import opened FrameIoApdu

  predicate IsFull(r: HidRead) {
    ReadCount(r) == 64
  }

  /** The number of full blocks among `n` reads. */
  function Full(script: nat -> HidRead, pos: nat, n: nat): (g: nat)
    ensures g <= n
    decreases n
  {
    if n == 0 then 0
    else (if IsFull(script(pos)) then 1 else 0) + Full(script, pos + 1, n - 1)
  }

  ghost predicate InOrderAt(script: nat -> HidRead, pos: nat, i: nat, cseq: nat) {
    IsFull(script(pos + i)) ==>
      && script(pos + i).block[..3] == [0x01, 0x01, 0x05]
      && U16At(script(pos + i).block, 3) == (cseq + Full(script, pos, i)) % 0x1_0000
  }

  /** The full blocks among `n` reads are correct frames numbered consecutively from `cseq`. */
  ghost predicate InOrder(script: nat -> HidRead, pos: nat, n: nat, cseq: nat) {
    forall i: nat :: i < n ==> InOrderAt(script, pos, i, cseq)
  }

  /** `c` after `n` reads none of which raised. */
  function Advanced(c: Counters, script: nat -> HidRead, pos: nat, n: nat): Counters {
    var g := Full(script, pos, n);
    Counters((c.cseq + g) % 0x1_0000, c.offset + 64 * g, c.rn + 64 * g + 5 * (n - g))
  }

  /** The number of reads before the loop ended or raised. */
  function Quiet(from: nat, s: Step): int {
    s.p.pos - from - if s.Thrown? then 1 else 0
  }

  lemma OneRead(p: Progress, script: nat -> HidRead)
    requires p.c.Valid()
    ensures var s := ReadStep(p, script);
      && (s.Going? ==> s.p.c == Advanced(p.c, script, p.pos, 1) && InOrder(script, p.pos, 1, p.c.cseq))
      && (s.Thrown? ==> s.p.c == p.c && s.p.out == p.out)
  {
    assert Full(script, p.pos, 1) == if IsFull(script(p.pos)) then 1 else 0;
    if ReadStep(p, script).Going? && IsFull(script(p.pos)) {
      var block := script(p.pos).block;
      assert U16At(block, 0) == 0x0101 && block[2] == 0x05;
      assert InOrderAt(script, p.pos, 0, p.c.cseq);
    }
  }

  lemma Shifted(script: nat -> HidRead, pos: nat, i: nat, cseq: u16)
    requires i > 0
    requires InOrderAt(script, pos + 1, i - 1, (cseq + Full(script, pos, 1)) % 0x1_0000)
    ensures InOrderAt(script, pos, i, cseq)
  {
    hide U16At;
    assert pos + i == pos + 1 + (i - 1);
    assert Full(script, pos, 1) == if IsFull(script(pos)) then 1 else 0;
  }

  lemma Chained(c: Counters, script: nat -> HidRead, pos: nat, n: nat)
    requires InOrder(script, pos, 1, c.cseq)
    requires InOrder(script, pos + 1, n, Advanced(c, script, pos, 1).cseq)
    ensures Advanced(Advanced(c, script, pos, 1), script, pos + 1, n) == Advanced(c, script, pos, n + 1)
    ensures InOrder(script, pos, n + 1, c.cseq)
  {
    assert Full(script, pos, 1) == if IsFull(script(pos)) then 1 else 0;
    hide InOrderAt;
    forall i: nat | i < n + 1 ensures InOrderAt(script, pos, i, c.cseq) {
      if i == 0 {
        assert InOrderAt(script, pos, 0, c.cseq);
      } else {
        Shifted(script, pos, i, c.cseq);
      }
    }
  }

  /** The loop: `m_seq` counts the good frames, `m_offset` 64 for each of them, `rn` 64 for
      each of them and 5 for each failed read. */
  lemma {:induction false} LoopCounts(p: Progress, respLen: nat, script: nat -> HidRead)
    requires p.c.Valid()
    ensures var s := ReadLoop(p, respLen, script);
      var n := Quiet(p.pos, s);
      && 0 <= n && (n > 0 ==> 5 * (n - 1) < respLen - p.c.rn)
      && s.p.c == Advanced(p.c, script, p.pos, n)
      && InOrder(script, p.pos, n, p.c.cseq)
    decreases respLen - p.c.rn
  {
    hide InOrder, ReadStep, Advanced;
    if p.c.rn < respLen {
      OneRead(p, script);
      match ReadStep(p, script)
      case Thrown(q, e) => NoReads(p.c, script, p.pos);
      case Going(q) =>
        LoopCounts(q, respLen, script);
        Chained(p.c, script, p.pos, Quiet(q.pos, ReadLoop(q, respLen, script)));
    } else {
      NoReads(p.c, script, p.pos);
    }
  }

  lemma NoReads(c: Counters, script: nat -> HidRead, pos: nat)
    ensures Advanced(c, script, pos, 0) == c && InOrder(script, pos, 0, c.cseq)
  {
  }

  /** A whole exchange that does not return normally leaves the counters of the reads it made;
      one that does leaves them cleared.  Either way it makes a bounded number of reads. */
  lemma ExchangeCounts(c0: Counters, script: nat -> HidRead, pos: nat)
    ensures var e := Receive(c0, script, pos);
      var n := if e.result.Ok? || e.result == Err(OutOfRange) then e.pos - pos else e.pos - pos - 1;
      && 0 <= n <= 13107
      && InOrder(script, pos, n, 0)
      && e.c == (if e.result.Ok? then CLEAN else Advanced(c0.(cseq := 0), script, pos, n))
  {
    hide InOrder, ReadLoop, Advanced;
    var p := Start(c0, pos);
    OneRead(p, script);
    match ReadStep(p, script)
    case Thrown(q, e) => NoReads(p.c, script, pos);
    case Going(q) =>
      var respLen := ResponseLength(q.out);
      LoopCounts(q, respLen, script);
      RaisesNoRange(q, respLen, script);
      Chained(p.c, script, pos, Quiet(q.pos, ReadLoop(q, respLen, script)));
  }

  /** Reads raise three errors only. */
  lemma {:induction false} RaisesNoRange(p: Progress, respLen: nat, script: nat -> HidRead)
    requires p.c.Valid()
    ensures var s := ReadLoop(p, respLen, script);
      s.Thrown? ==> s.error.BadChannel? || s.error.BadTag? || s.error.WrongSeqno?
    decreases respLen - p.c.rn
  {
    if p.c.rn < respLen && ReadStep(p, script).Going? {
      RaisesNoRange(ReadStep(p, script).p, respLen, script);
    }
  }

  /** From a clean start the counters of an interrupted exchange are m_seq = g, m_offset = 64g
      and rn = 64g + 5b for the g good and b failed reads made, and the good frames carried
      the numbers 0 to g - 1 in this order. */
  lemma CleanExchangeCounts(script: nat -> HidRead, pos: nat, i: nat)
    ensures var e := Receive(CLEAN, script, pos);
      var n := if e.result == Err(OutOfRange) then e.pos - pos else e.pos - pos - 1;
      !e.result.Ok? ==>
        && n >= 0
        && var g := Full(script, pos, n);
           && g < 0x1_0000
           && e.c == Counters(g, 64 * g, 64 * g + 5 * (n - g))
           && (i < n && IsFull(script(pos + i)) ==>
                 U16At(script(pos + i).block, 3) == Full(script, pos, i) < g)
  {
    hide Receive;
    ExchangeCounts(CLEAN, script, pos);
    var e := Receive(CLEAN, script, pos);
    if !e.result.Ok? {
      var n := if e.result == Err(OutOfRange) then e.pos - pos else e.pos - pos - 1;
      if i < n && IsFull(script(pos + i)) {
        FullGrows(script, pos, i, n);
        assert InOrderAt(script, pos, i, 0);
      }
    }
  }

  lemma {:induction false} FullGrows(script: nat -> HidRead, pos: nat, i: nat, n: nat)
    requires i < n && IsFull(script(pos + i))
    ensures Full(script, pos, i) < Full(script, pos, n)
    decreases n
  {
    if i > 0 {
      assert pos + i == pos + 1 + (i - 1);
      FullGrows(script, pos + 1, i - 1, n - 1);
    }
  }

  /** A full block that is a frame with another number than the one due. */
  predicate WrongFrame(r: HidRead, due: nat) {
    IsFull(r) && r.block[..3] == [0x01, 0x01, 0x05] && U16At(r.block, 3) != due % 0x1_0000
  }

  lemma StepFails(p: Progress, script: nat -> HidRead)
    requires p.c.Valid()
    ensures var s := ReadStep(p, script);
      && (s.Thrown? && s.error.WrongSeqno? <==> WrongFrame(script(p.pos), p.c.cseq))
      && (InOrder(script, p.pos, 1, p.c.cseq) ==> s.Going?)
  {
    assert Full(script, p.pos, 0) == 0;
    assert InOrder(script, p.pos, 1, p.c.cseq) ==> InOrderAt(script, p.pos, 0, p.c.cseq);
    var block := script(p.pos).block;
    assert block[..3] == [0x01, 0x01, 0x05] <==> U16At(block, 0) == 0x0101 && block[2] == 0x05;
  }

  /** What Chained puts together, taken apart. */
  lemma Unchained(c: Counters, script: nat -> HidRead, pos: nat, n: nat)
    requires InOrder(script, pos, n + 1, c.cseq)
    ensures InOrder(script, pos, 1, c.cseq)
    ensures InOrder(script, pos + 1, n, Advanced(c, script, pos, 1).cseq)
    ensures Advanced(Advanced(c, script, pos, 1), script, pos + 1, n) == Advanced(c, script, pos, n + 1)
  {
    hide U16At;
    assert Full(script, pos, 1) == if IsFull(script(pos)) then 1 else 0;
    var next, due := pos + 1, Advanced(c, script, pos, 1).cseq;
    forall i: nat | i < n ensures InOrderAt(script, next, i, due) {
      assert InOrderAt(script, pos, i + 1, c.cseq);
      assert next + i == pos + (i + 1);
    }
  }

  /** The loop takes `n` reads in order that leave `rn` short of the response length, and then
      meets a wrong number. */
  ghost predicate LoopFailsAt(c: Counters, script: nat -> HidRead, pos: nat, respLen: nat, n: nat) {
    && InOrder(script, pos, n, c.cseq)
    && Advanced(c, script, pos, n).rn < respLen
    && WrongFrame(script(pos + n), c.cseq + Full(script, pos, n))
  }

  lemma DueNext(c: Counters, script: nat -> HidRead, pos: nat, n: nat)
    ensures (c.cseq + Full(script, pos, n + 1)) % 0x1_0000
         == (Advanced(c, script, pos, 1).cseq + Full(script, pos + 1, n)) % 0x1_0000
  {
    assert Full(script, pos, 1) == if IsFull(script(pos)) then 1 else 0;
  }

  /** One read earlier. */
  lemma FailsLater(c: Counters, script: nat -> HidRead, pos: nat, respLen: nat, n: nat)
    requires InOrder(script, pos, 1, c.cseq)
    ensures LoopFailsAt(Advanced(c, script, pos, 1), script, pos + 1, respLen, n)
            <==> LoopFailsAt(c, script, pos, respLen, n + 1)
  {
    hide InOrder, Advanced;
    DueNext(c, script, pos, n);
    assert pos + 1 + n == pos + (n + 1);
    if InOrder(script, pos, n + 1, c.cseq) {
      Unchained(c, script, pos, n);
    }
    if InOrder(script, pos + 1, n, Advanced(c, script, pos, 1).cseq) {
      Chained(c, script, pos, n);
    }
  }

  predicate ThrowsWrong(s: Step) {
    s.Thrown? && s.error.WrongSeqno?
  }

  lemma {:induction false} FailingLoop(p: Progress, respLen: nat, script: nat -> HidRead) returns (n: nat)
    requires p.c.Valid() && ThrowsWrong(ReadLoop(p, respLen, script))
    ensures LoopFailsAt(p.c, script, p.pos, respLen, n)
    ensures ReadLoop(p, respLen, script).p.c == Advanced(p.c, script, p.pos, n)
    decreases respLen - p.c.rn
  {
    hide InOrder, ReadStep, Advanced, WrongFrame;
    OneRead(p, script);
    StepFails(p, script);
    match ReadStep(p, script)
    case Thrown(q, e) =>
      NoReads(p.c, script, p.pos);
      n := 0;
    case Going(q) =>
      var m := FailingLoop(q, respLen, script);
      FailsLater(p.c, script, p.pos, respLen, m);
      Chained(p.c, script, p.pos, m);
      n := m + 1;
  }

  lemma {:induction false} LoopFails(p: Progress, respLen: nat, script: nat -> HidRead, n: nat)
    requires p.c.Valid() && LoopFailsAt(p.c, script, p.pos, respLen, n)
    ensures ThrowsWrong(ReadLoop(p, respLen, script))
    decreases n
  {
    hide InOrder, ReadStep, WrongFrame;
    OneRead(p, script);
    StepFails(p, script);
    if n > 0 {
      Unchained(p.c, script, p.pos, n - 1);
      FailsLater(p.c, script, p.pos, respLen, n - 1);
      LoopFails(ReadStep(p, script).p, respLen, script, n - 1);
    }
  }

  /** The response length as the first read leaves it: a failed one leaves zeros. */
  function Announced(script: nat -> HidRead, pos: nat): u16 {
    if IsFull(script(pos)) then (U16At(script(pos).block, 5) + 2) % 0x1_0000 else 2
  }

  /** An exchange meets a wrong number at its read `n`: all full blocks before are frames in
      order, and `rn` has not reached the announced length.  The first read is made anyway. */
  ghost predicate FailsAt(c0: Counters, script: nat -> HidRead, pos: nat, n: nat) {
    && InOrder(script, pos, n, 0)
    && (n > 0 ==> Advanced(c0.(cseq := 0), script, pos, n).rn < Announced(script, pos))
    && WrongFrame(script(pos + n), Full(script, pos, n))
  }

  predicate RaisesWrong(r: Result<Reply>) {
    r.Err? && r.error.WrongSeqno?
  }

  lemma AnnouncedIs(c0: Counters, script: nat -> HidRead, pos: nat)
    requires ReadStep(Start(c0, pos), script).Going?
    ensures var out := ReadStep(Start(c0, pos), script).p.out;
      |out| >= 2 && ResponseLength(out) == Announced(script, pos)
  {
    var out, r := ReadStep(Start(c0, pos), script).p.out, script(pos);
    if IsFull(r) {
      assert Inspect(0, r) == Accept(r.block[5..]);
      assert out[0] == r.block[5] && out[1] == r.block[6];
    } else {
      assert out == Zeros(255);
    }
  }

  /** The end of an exchange raises the error that the loop threw, or std::out_of_range. */
  lemma SplitRaises(q: Progress, respLen: u16, script: nat -> HidRead)
    requires q.c.Valid()
    ensures RaisesWrong(Conclude(ReadLoop(q, respLen, script), respLen).result)
            <==> ThrowsWrong(ReadLoop(q, respLen, script))
  {
    hide ReadLoop;
  }

  /** An exchange that raises the wrong-sequence error meets a wrong number, and leaves the
      counters of the reads before. */
  lemma FailureMet(c0: Counters, script: nat -> HidRead, pos: nat) returns (n: nat)
    requires RaisesWrong(Receive(c0, script, pos).result)
    ensures FailsAt(c0, script, pos, n)
    ensures Receive(c0, script, pos).c == Advanced(c0.(cseq := 0), script, pos, n)
  {
    hide InOrder, ReadLoop, WrongFrame, ReadStep, Announced, ResponseLength, Advanced;
    var p := Start(c0, pos);
    StepFails(p, script);
    OneRead(p, script);
    NoReads(p.c, script, pos);
    match ReadStep(p, script)
    case Thrown(q, e) =>
      n := 0;
    case Going(q) =>
      AnnouncedIs(c0, script, pos);
      SplitRaises(q, Announced(script, pos), script);
      var m := FailingLoop(q, Announced(script, pos), script);
      FailsLater(p.c, script, pos, Announced(script, pos), m);
      Chained(p.c, script, pos, m);
      n := m + 1;
  }

  lemma FailureRaises(c0: Counters, script: nat -> HidRead, pos: nat, n: nat)
    requires FailsAt(c0, script, pos, n)
    ensures RaisesWrong(Receive(c0, script, pos).result)
  {
    hide InOrder, ReadLoop, WrongFrame, ReadStep, Announced, ResponseLength, Advanced;
    var p := Start(c0, pos);
    StepFails(p, script);
    OneRead(p, script);
    if n > 0 {
      Unchained(p.c, script, pos, n - 1);
      var q := ReadStep(p, script).p;
      AnnouncedIs(c0, script, pos);
      FailsLater(p.c, script, pos, Announced(script, pos), n - 1);
      LoopFails(q, Announced(script, pos), script, n - 1);
      SplitRaises(q, Announced(script, pos), script);
    }
  }

  /** When an exchange raises the wrong-sequence error, frame by frame. */
  lemma FailsIff(c0: Counters, script: nat -> HidRead, pos: nat)
    ensures RaisesWrong(Receive(c0, script, pos).result) <==> exists n: nat :: FailsAt(c0, script, pos, n)
  {
    hide Receive, FailsAt;
    if RaisesWrong(Receive(c0, script, pos).result) {
      var n := FailureMet(c0, script, pos);
    }
    if n: nat :| FailsAt(c0, script, pos, n) {
      FailureRaises(c0, script, pos, n);
    }
  }
}
