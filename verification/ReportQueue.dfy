/** The linked list of input reports that the libusb and mac back ends share: appended to by
    the callback, popped by hid_read, and limited by dropping the oldest report. */
module ReportQueue {
  import opened Bytes

  /** An arriving report is appended.  If 32 reports were queued already, the oldest goes. */
  function Enqueue<T>(q: seq<T>, r: T): (q': seq<T>)
    ensures |q| <= 32 ==> |q'| <= 32
  {
    if |q| < 32 then q + [r] else q[1..] + [r]
  }

  type Report = seq<byte>

  /** How long hid_read_timeout may wait: not at all, for ever, or for a time. */
  datatype Mode = NonBlocking | Blocking | Timed

  datatype ReadResult = Data(r: Report) | NothingRead | Failed

  /** What became of a report: `queued` is how many were queued when a drop was decided. */
  datatype Fate = Delivered(r: Report) | Dropped(r: Report, queued: nat) | Discarded(r: Report)

  /** The queued reports, all reports received so far and what became of those that left. */
  datatype Traffic = Traffic(reports: seq<Report>, received: seq<Report>, fates: seq<Fate>) {
    function Pop(f: Fate): Traffic
      requires reports != []
    {
      Traffic(reports[1..], received, fates + [f])
    }

    function Arrive(r: Report): Traffic {
      Traffic(Enqueue(reports, r), received + [r],
              if |reports| < 32 then fates else fates + [Dropped(reports[0], |reports|)])
    }

    /** Every report is delivered, dropped or discarded once, in the order of arrival, or is
        still queued; and one is dropped only when 32 were queued. */
    predicate Conserved() {
      && received == Reports(fates) + reports
      && |reports| <= 32
      && forall i :: 0 <= i < |fates| && fates[i].Dropped? ==> fates[i].queued == 32
    }
  }

  function Reports(fates: seq<Fate>): seq<Report> {
    seq(|fates|, i requires 0 <= i < |fates| => fates[i].r)
  }

  lemma ReportsAppend(fates: seq<Fate>, f: Fate)
    ensures Reports(fates + [f]) == Reports(fates) + [f.r]
  {
  }

  lemma PopConserves(q: Traffic, f: Fate)
    requires q.Conserved() && q.reports != [] && f.r == q.reports[0] && !f.Dropped?
    ensures q.Pop(f).Conserved() && q.Pop(f).received == q.received
  {
    assert q.reports == [f.r] + q.reports[1..];
    ReportsAppend(q.fates, f);
  }

  lemma ArriveConserves(q: Traffic, r: Report)
    requires q.Conserved()
    ensures q.Arrive(r).Conserved() && q.Arrive(r).received == q.received + [r]
  {
    if |q.reports| >= 32 {
      assert q.reports == [q.reports[0]] + q.reports[1..];
      ReportsAppend(q.fates, Dropped(q.reports[0], |q.reports|));
    }
  }

  class InputReport {
    const data: seq<byte>
    var next: InputReport?

    constructor (data: seq<byte>)
      ensures this.data == data && next == null
    {
      this.data := data;
      next := null;
    }
  }

  ghost function Elements(nodes: seq<InputReport>): set<InputReport> {
    set r | r in nodes
  }

  lemma ElementsNone()
    ensures Elements([]) == {}
  {
  }

  lemma ElementsNext(nodes: seq<InputReport>, k: nat)
    requires k < |nodes|
    ensures Elements(nodes[..k + 1]) == Elements(nodes[..k]) + {nodes[k]}
    ensures nodes[k..][1..] == nodes[k + 1..]
  {
    assert nodes[..k + 1] == nodes[..k] + [nodes[k]];
  }

  class ReportList {
    var inputReports: InputReport?
    /** The reports of the list, first to last, and the ones that were given back to free(). */
    ghost var nodes: seq<InputReport>
    ghost var freed: set<InputReport>

    ghost predicate Valid()
      reads this, nodes
    {
      && inputReports == Link(0)
      && (forall i :: 0 <= i < |nodes| ==> nodes[i].next == Link(i + 1))
      && (forall i, j :: 0 <= i < j < |nodes| ==> nodes[i] != nodes[j])
      && (forall i :: 0 <= i < |nodes| ==> nodes[i] !in freed)
    }

    ghost function Link(i: nat): InputReport?
      reads this
    {
      if i < |nodes| then nodes[i] else null
    }

    ghost function Contents(): (c: seq<seq<byte>>)
      reads this
      ensures |c| == |nodes|
    {
      seq(|nodes|, i requires 0 <= i < |nodes| reads this => nodes[i].data)
    }

    constructor ()
      ensures Valid() && Contents() == [] && freed == {}
    {
      inputReports, nodes, freed := null, [], {};
    }

    /** Copies the oldest report into `data` as far as `length` allows and frees it. */
    method ReturnData(data: array?<byte>, length: nat) returns (n: nat)
      requires Valid() && Contents() != []
      requires length > 0 ==> data != null && length <= data.Length
      modifies this, data
      ensures Valid() && nodes == old(nodes)[1..] && Contents() == old(Contents())[1..]
      ensures freed == old(freed) + {old(nodes[0])}
      ensures n == Min(length, |old(Contents()[0])|)
      ensures data != null ==>
        data[..] == if n == 0 then old(data[..]) else old(Contents()[0])[..n] + old(data[n..])
    {
      var rpt := inputReports;
      n := Min(length, |rpt.data|);
      if n > 0 {
        forall i | 0 <= i < n {
          data[i] := rpt.data[i];
        }
      }
      inputReports := rpt.next;
      nodes, freed := nodes[1..], freed + {rpt};
    }

    /** Finds the end of the list and attaches there; the walk counts the reports before the one
        that was the last. */
    method AttachAtEnd(rpt: InputReport) returns (numQueued: nat)
      requires Valid() && nodes != []
      requires rpt !in nodes && rpt !in freed && rpt.next == null
      modifies this`nodes, nodes[|nodes| - 1]
      ensures Valid() && nodes == old(nodes) + [rpt]
      ensures numQueued == |old(nodes)| - 1
    {
      var cur := inputReports;
      numQueued := 0;
      while cur.next != null
        invariant 0 <= numQueued < |nodes| && cur == nodes[numQueued]
        decreases |nodes| - numQueued
      {
        cur, numQueued := cur.next, numQueued + 1;
      }
      cur.next := rpt;
      nodes := nodes + [rpt];
    }

    /** The part of both callbacks that queues a report.  It drops one when more than 30 precede
        the last one, that is, when 32 were queued. */
    method Append(buf: seq<byte>) returns (wasEmpty: bool)
      requires Valid()
      modifies this, if nodes == [] then {} else {nodes[|nodes| - 1]}
      ensures Valid()
      ensures Contents() == Enqueue(old(Contents()), buf)
      ensures wasEmpty == (old(Contents()) == [])
      ensures freed == old(freed) + if |old(nodes)| < 32 then {} else {old(nodes[0])}
    {
      var rpt := new InputReport(buf);
      wasEmpty := inputReports == null;
      if inputReports == null {
        inputReports := rpt;
        nodes := [rpt];
      } else {
        var numQueued := AttachAtEnd(rpt);
        assert Contents() == old(Contents()) + [buf];
        if numQueued > 30 {
          var _ := ReturnData(null, 0);
        }
      }
    }

    /** hid_close empties the list: every report it held is freed. */
    method Clear()
      requires Valid()
      modifies this
      ensures Valid() && Contents() == []
      ensures freed == old(freed) + Elements(old(nodes))
    {
      hide Elements;
      ghost var all, k := nodes, 0;
      ElementsNone();
      while inputReports != null
        invariant Valid() && k <= |all| && nodes == all[k..]
        invariant freed == old(freed) + Elements(all[..k])
        decreases |nodes|
      {
        ElementsNext(all, k);
        var _ := ReturnData(null, 0);
        k := k + 1;
      }
      assert all[..k] == all;
    }
  }
}
