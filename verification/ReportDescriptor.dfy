/** The walks over HID report descriptors: uses_numbered_reports of the hidraw back end, and
    get_bytes and get_usage of the libusb back end.  Items are those of sections 6.2.2.2 and
    6.2.2.3 of the USB HID specification 1.11.  The bit tests of the source are written as
    arithmetic: the top nibble of a byte is its quotient by 16, `key & 0x3` its remainder by
    4, and `key & 0xfc` the key without that remainder. */
module ReportDescriptor {
  import opened Bytes

  datatype Item =
    | Short(prefix: byte, data: seq<byte>)
    | Long(prefix: byte, tag: byte, data: seq<byte>)
  {
    predicate WellFormed() {
      match this
      case Short(prefix, data) => prefix / 16 != 15 && |data| == DataSize(prefix % 4)
      case Long(prefix, tag, data) => prefix / 16 == 15 && |data| < 0x100
    }

    function Encode(): (s: seq<byte>)
      requires WellFormed()
      ensures |s| > 0 && s[0] == prefix
    {
      match this
      case Short(prefix, data) => [prefix] + data
      case Long(prefix, tag, data) => [prefix, |data|, tag] + data
    }
  }

  /** The number of data bytes a short item's size code stands for. */
  function DataSize(code: nat): nat {
    if code == 3 then 4 else code
  }

  ghost predicate AllWellFormed(items: seq<Item>) {
    forall i :: 0 <= i < |items| ==> items[i].WellFormed()
  }

  function EncodeAll(items: seq<Item>): seq<byte>
    requires AllWellFormed(items)
  {
    if items == [] then [] else items[0].Encode() + EncodeAll(items[1..])
  }

  /** The data length and the key size read at `i`. */
  function DataLength(d: seq<byte>, i: nat): nat
    requires i < |d|
  {
    if d[i] / 16 == 15 then (if i + 1 < |d| then d[i + 1] else 0) else DataSize(d[i] % 4)
  }

  function KeySize(key: byte): nat {
    if key / 16 == 15 then 3 else 1
  }

  function NextIndex(d: seq<byte>, i: nat): (j: nat)
    requires i < |d|
    ensures i < j <= i + 258
  {
    i + DataLength(d, i) + KeySize(d[i])
  }

  /** One step of the walks on arbitrary bytes: over one to five bytes, or over a long item. */
  lemma NextIs(d: seq<byte>, i: nat)
    requires i < |d|
    ensures NextIndex(d, i) == i + (
      if d[i] >= 0xf0 then (if i + 1 < |d| then 3 + (d[i + 1] as int) else 3)
      else if d[i] % 4 == 0 then 1
      else if d[i] % 4 == 1 then 2
      else if d[i] % 4 == 2 then 3
      else 5)
  {
  }

  /** The indices a walk that starts at `i` visits. */
  function Visits(d: seq<byte>, i: nat): seq<nat>
    decreases |d| - i
  {
    if i >= |d| then [] else [i] + Visits(d, NextIndex(d, i))
  }

  lemma {:induction false} VisitsInBounds(d: seq<byte>, i: nat, k: nat)
    requires k < |Visits(d, i)|
    ensures i <= Visits(d, i)[k] < |d|
    decreases |d| - i
  {
    if k > 0 {
      VisitsInBounds(d, NextIndex(d, i), k - 1);
    }
  }

  /** The key the walk finds at its stop number `k`. */
  function Visited(d: seq<byte>, k: nat): byte
    requires k < |Visits(d, 0)|
  {
    VisitsInBounds(d, 0, k);
    d[Visits(d, 0)[k]]
  }

  /** An item in the middle of a descriptor is stepped over exactly. */
  lemma StepsOverItem(before: seq<byte>, item: Item, after: seq<byte>)
    requires item.WellFormed()
    ensures var d := before + item.Encode() + after;
      d[|before|] == item.prefix && NextIndex(d, |before|) == |before + item.Encode()|
  {
    var d := before + item.Encode() + after;
    assert d[|before|] == item.Encode()[0];
    if item.Long? {
      assert d[|before| + 1] == item.Encode()[1];
    }
  }

  lemma {:induction false} VisitsFrom(before: seq<byte>, items: seq<Item>, k: nat)
    requires AllWellFormed(items) && k < |items|
    ensures AllWellFormed(items[..k])
    ensures var visits := Visits(before + EncodeAll(items), |before|);
      |visits| == |items| && visits[k] == |before| + |EncodeAll(items[..k])|
    decreases |items|
  {
    hide NextIndex, Item.Encode;
    var d := before + EncodeAll(items);
    var rest := before + items[0].Encode();
    assert d == rest + EncodeAll(items[1..]);
    StepsOverItem(before, items[0], EncodeAll(items[1..]));
    if |items| == 1 {
      assert EncodeAll(items[1..]) == [];
    } else {
      VisitsFrom(rest, items[1..], if k == 0 then 0 else k - 1);
    }
    if k > 0 {
      assert items[..k][1..] == items[1..][..k - 1];
    }
  }

  /** On the encoding of any items the walk stops exactly where items begin. */
  lemma VisitsItems(items: seq<Item>, k: nat)
    requires AllWellFormed(items) && k < |items|
    ensures var d := EncodeAll(items);
      && |Visits(d, 0)| == |items|
      && AllWellFormed(items[..k])
      && Visits(d, 0)[k] == |EncodeAll(items[..k])|
      && Visited(d, k) == items[k].prefix
  {
    var d := EncodeAll(items);
    assert [] + d == d;
    VisitsFrom([], items, k);
    EncodeSplit(items, k);
    StepsOverItem(EncodeAll(items[..k]), items[k], EncodeAll(items[k + 1..]));
  }

  lemma {:induction false} EncodeSplit(items: seq<Item>, k: nat)
    requires AllWellFormed(items) && k < |items|
    ensures AllWellFormed(items[..k]) && AllWellFormed(items[k + 1..])
    ensures EncodeAll(items) == EncodeAll(items[..k]) + items[k].Encode() + EncodeAll(items[k + 1..])
    decreases k
  {
    hide Item.Encode;
    if k > 0 {
      EncodeSplit(items[1..], k - 1);
      assert items[..k][1..] == items[1..][..k - 1];
      assert items[k + 1..] == items[1..][k..];
      var first, before, after := items[0].Encode(), EncodeAll(items[1..][..k - 1]), EncodeAll(items[k + 1..]);
      assert first + (before + items[k].Encode() + after) == first + before + items[k].Encode() + after;
    }
  }

  const REPORT_ID: byte := 0x85

  ghost predicate NumberedReports(d: seq<byte>) {
    exists k :: 0 <= k < |Visits(d, 0)| && Visited(d, k) == REPORT_ID
  }

  /** A descriptor uses numbered reports exactly if one of its items is a Report ID item; the
      same byte inside the data of an item does not count. */
  lemma NumberedReportsIff(items: seq<Item>)
    requires AllWellFormed(items)
    ensures NumberedReports(EncodeAll(items)) <==> exists k :: 0 <= k < |items| && items[k].prefix == 0x85
  {
    var d := EncodeAll(items);
    if items == [] {
      assert Visits(d, 0) == [];
    } else {
      VisitsItems(items, 0);
      forall k | 0 <= k < |items| ensures Visited(d, k) == items[k].prefix {
        VisitsItems(items, k);
      }
    }
  }

  /** The walk terminates on arbitrary bytes.  Its 32-bit index must not wrap; the descriptors
      of the source are at most 4096 bytes long. */
  method UsesNumberedReports(d: seq<byte>) returns (r: bool)
    requires |d| + 258 <= 0xFFFF_FFFF
    ensures r <==> NumberedReports(d)
  {
    var i: nat := 0;
    ghost var seen := 0;
    while i < |d|
      invariant i <= 0xFFFF_FFFF
      invariant seen <= |Visits(d, 0)| && Visits(d, 0)[seen..] == Visits(d, i)
      invariant forall k :: 0 <= k < seen ==> Visited(d, k) != REPORT_ID
      decreases |d| - i
    {
      var key := d[i];
      assert Visits(d, 0)[seen] == i;
      if key == REPORT_ID {
        assert Visited(d, seen) == REPORT_ID;
        return true;
      }
      var dataLen, keySize;
      if key / 16 == 15 {
        if i + 1 < |d| {
          dataLen := d[i + 1];
        } else {
          dataLen := 0;
        }
        keySize := 3;
      } else {
        var sizeCode := key % 4;
        dataLen := if sizeCode == 3 then 4 else sizeCode;
        keySize := 1;
      }
      i := i + dataLen + keySize;
      assert Visits(d, 0)[seen..][1..] == Visits(d, 0)[seen + 1..];
      seen := seen + 1;
    }
    r := false;
  }

  function LittleEndian(data: seq<byte>): nat {
    if data == [] then 0 else data[0] + 0x100 * LittleEndian(data[1..])
  }

  /** The data of the item at `cur`, byte by byte as the source adds it up. */
  function GetBytes(rpt: seq<byte>, numBytes: nat, cur: nat): u32 {
    if cur + numBytes >= |rpt| then 0
    else if numBytes == 0 then 0
    else if numBytes == 1 then rpt[cur + 1]
    else if numBytes == 2 then
      var low: int, high: int := rpt[cur + 1], rpt[cur + 2];
      high * 256 + low
    else if numBytes == 4 then
      var a: int, b: int, c: int, d: int := rpt[cur + 4], rpt[cur + 3], rpt[cur + 2], rpt[cur + 1];
      a * 0x0100_0000 + b * 0x0001_0000 + c * 0x0000_0100 + d
    else 0
  }

  lemma GetBytesIs(rpt: seq<byte>, numBytes: nat, cur: nat)
    requires numBytes in {0, 1, 2, 4}
    ensures GetBytes(rpt, numBytes, cur)
         == if cur + numBytes < |rpt| then LittleEndian(rpt[cur + 1..cur + 1 + numBytes]) else 0
  {
    if cur + numBytes < |rpt| {
      LittleEndianShort(rpt[cur + 1..cur + 1 + numBytes]);
    }
  }

  lemma LittleEndianShort(data: seq<byte>)
    ensures |data| == 1 ==> LittleEndian(data) == data[0]
    ensures |data| == 2 ==> LittleEndian(data) == data[0] + 0x100 * (data[1] as int)
    ensures |data| == 4 ==>
      LittleEndian(data)
      == data[0] + 0x100 * (data[1] as int) + 0x1_0000 * (data[2] as int) + 0x100_0000 * (data[3] as int)
  {
    if |data| == 4 {
      assert data[1..] == [data[1], data[2], data[3]];
      assert data[1..][1..] == [data[2], data[3]];
      assert data[1..][1..][1..] == [data[3]];
      assert LittleEndian([data[3]]) == data[3];
      assert LittleEndian([data[2], data[3]]) == data[2] + 0x100 * (data[3] as int) by {
        assert [data[2], data[3]][1..] == [data[3]];
      }
    }
  }

  const USAGE_PAGE: byte := 0x04
  const USAGE: byte := 0x08

  function Command(key: byte): byte {
    key - key % 4
  }

  datatype Found = Found(page: Option<u16>, usage: Option<u16>) {
    predicate Complete() {
      page.Some? && usage.Some?
    }
  }

  /** What the item at `i` adds. */
  function See(d: seq<byte>, i: nat, f: Found): Found
    requires i < |d|
  {
    var value := GetBytes(d, DataLength(d, i), i) % 0x1_0000;
    Found(if Command(d[i]) == USAGE_PAGE then Some(value) else f.page,
          if Command(d[i]) == USAGE then Some(value) else f.usage)
  }

  /** The walk of get_usage from `i` on: it stops as soon as both are found. */
  function Scan(d: seq<byte>, i: nat, f: Found): Found
    decreases |d| - i
  {
    if i >= |d| then f
    else
      var g := See(d, i, f);
      if g.Complete() then g else Scan(d, NextIndex(d, i), g)
  }

  /** The out-parameters keep their values where nothing is found. */
  method GetUsage(d: seq<byte>, page0: u16, usage0: u16) returns (r: int, page: u16, usage: u16)
    requires |d| + 258 <= 0xFFFF_FFFF
    ensures var f := Scan(d, 0, Found(None, None));
      && r == (if f.Complete() then 0 else -1)
      && page == (if f.page.Some? then f.page.value else page0)
      && usage == (if f.usage.Some? then f.usage.value else usage0)
  {
    page, usage := page0, usage0;
    var i: nat := 0;
    var usageFound, usagePageFound := false, false;
    ghost var f := Found(None, None);
    while i < |d|
      invariant i <= 0xFFFF_FFFF
      invariant Scan(d, 0, Found(None, None)) == Scan(d, i, f) && !f.Complete()
      invariant usagePageFound == f.page.Some? && usageFound == f.usage.Some?
      invariant page == (if f.page.Some? then f.page.value else page0)
      invariant usage == (if f.usage.Some? then f.usage.value else usage0)
      decreases |d| - i
    {
      var key := d[i];
      var keyCmd := key - key % 4;
      var dataLen, keySize;
      if key / 16 == 15 {
        if i + 1 < |d| {
          dataLen := d[i + 1];
        } else {
          dataLen := 0;
        }
        keySize := 3;
      } else {
        var sizeCode := key % 4;
        dataLen := if sizeCode == 3 then 4 else sizeCode;
        keySize := 1;
      }
      f := See(d, i, f);
      if keyCmd == 0x4 {
        page := GetBytes(d, dataLen, i) % 0x1_0000;
        usagePageFound := true;
      }
      if keyCmd == 0x8 {
        usage := GetBytes(d, dataLen, i) % 0x1_0000;
        usageFound := true;
      }
      if usagePageFound && usageFound {
        return 0, page, usage;
      }
      i := i + dataLen + keySize;
    }
    r := -1;
  }

  /** The value of the last item of a kind. */
  function Last(items: seq<Item>, command: byte): Option<u16> {
    if items == [] then None
    else
      var item := items[|items| - 1];
      if Command(item.prefix) == command then Some(LittleEndian(item.data) % 0x1_0000)
      else Last(items[..|items| - 1], command)
  }

  function LastOfEach(items: seq<Item>): Found {
    Found(Last(items, USAGE_PAGE), Last(items, USAGE))
  }

  lemma {:induction false} LastExists(items: seq<Item>, command: byte)
    ensures Last(items, command).Some? <==> exists i :: 0 <= i < |items| && Command(items[i].prefix) == command
  {
    if items != [] {
      LastExists(items[..|items| - 1], command);
    }
  }

  /** The length of the shortest prefix, of at least `k` items, that has both kinds; all items
      if none has. */
  function Shortest(items: seq<Item>, k: nat): (n: nat)
    requires k <= |items|
    ensures k <= n <= |items|
    ensures forall m :: k <= m < n ==> !LastOfEach(items[..m]).Complete()
    ensures n < |items| ==> LastOfEach(items[..n]).Complete()
    decreases |items| - k
  {
    if k == |items| || LastOfEach(items[..k]).Complete() then k else Shortest(items, k + 1)
  }

  /** An item in the middle of a descriptor adds its value. */
  lemma SeesItem(before: seq<byte>, item: Item, after: seq<byte>, f: Found)
    requires item.WellFormed()
    ensures var value := LittleEndian(item.data) % 0x1_0000;
      See(before + item.Encode() + after, |before|, f)
      == Found(if Command(item.prefix) == USAGE_PAGE then Some(value) else f.page,
               if Command(item.prefix) == USAGE then Some(value) else f.usage)
  {
    var d := before + item.Encode() + after;
    StepsOverItem(before, item, after);
    if item.Short? {
      var i := |before|;
      GetBytesIs(d, |item.data|, i);
      assert d[i + 1..i + 1 + |item.data|] == item.data;
    }
  }

  lemma {:induction false} ScanFrom(items: seq<Item>, k: nat)
    requires AllWellFormed(items) && k <= |items| && !LastOfEach(items[..k]).Complete()
    ensures AllWellFormed(items[..k])
    ensures Scan(EncodeAll(items), |EncodeAll(items[..k])|, LastOfEach(items[..k]))
         == LastOfEach(items[..Shortest(items, k)])
    decreases |items| - k
  {
    hide Item.Encode, EncodeAll, See;
    var d := EncodeAll(items);
    if k == |items| {
      assert items[..k] == items;
    } else {
      EncodeSplit(items, k);
      var before, after := EncodeAll(items[..k]), EncodeAll(items[k + 1..]);
      StepsOverItem(before, items[k], after);
      SeesItem(before, items[k], after, LastOfEach(items[..k]));
      assert items[..k + 1][..k] == items[..k];
      assert See(d, |before|, LastOfEach(items[..k])) == LastOfEach(items[..k + 1]);
      EncodePrefix(items, k);
      if !LastOfEach(items[..k + 1]).Complete() {
        ScanFrom(items, k + 1);
      }
    }
  }

  lemma EncodePrefix(items: seq<Item>, k: nat)
    requires AllWellFormed(items) && k < |items|
    ensures AllWellFormed(items[..k]) && AllWellFormed(items[..k + 1])
    ensures EncodeAll(items[..k + 1]) == EncodeAll(items[..k]) + items[k].Encode()
  {
    EncodeSplit(items[..k + 1], k);
    assert items[..k + 1][..k] == items[..k];
    assert items[..k + 1][k + 1..] == [];
  }

  /** On the encoding of any items get_usage finds the last Usage Page and the last Usage of
      the shortest prefix that has both, and fails if and only if one of them is missing. */
  lemma UsageOfItems(items: seq<Item>)
    requires AllWellFormed(items)
    ensures var f := Scan(EncodeAll(items), 0, Found(None, None));
      && f == LastOfEach(items[..Shortest(items, 0)])
      && (f.Complete() <==>
            && (exists i :: 0 <= i < |items| && Command(items[i].prefix) == USAGE_PAGE)
            && (exists i :: 0 <= i < |items| && Command(items[i].prefix) == USAGE))
  {
    hide Last, Scan;
    assert items[..0] == [];
    NoneInNothing();
    ScanFrom(items, 0);
    LastExists(items, USAGE_PAGE);
    LastExists(items, USAGE);
    var n := Shortest(items, 0);
    if n == |items| {
      assert items[..n] == items;
    } else {
      LastGrows(items, n, USAGE_PAGE);
      LastGrows(items, n, USAGE);
    }
  }

  /** The descriptors of devices begin with a usage page of one, two or four data bytes, the least
      significant first, and a usage; these are found, in 16 bits. */
  lemma UsageAtFront(a: byte, b: byte, c: byte, e: byte, usage: byte, rest: seq<byte>)
    ensures Scan([0x05, a, 0x09, usage] + rest, 0, Found(None, None)) == Found(Some(a), Some(usage))
    ensures Scan([0x06, a, b, 0x09, usage] + rest, 0, Found(None, None))
         == Found(Some(a + 0x100 * (b as int)), Some(usage))
    ensures Scan([0x07, a, b, c, e, 0x09, usage] + rest, 0, Found(None, None))
         == Found(Some(a + 0x100 * (b as int)), Some(usage))
    ensures Scan([0x09, usage, 0x04] + rest, 0, Found(None, None)) == Found(Some(0), Some(usage))
  {
    OneThenOne([0x05, a, 0x09, usage] + rest, 2);
    OneThenOne([0x06, a, b, 0x09, usage] + rest, 3);
    var low, high: int := a + 0x100 * (b as int), c + 0x100 * (e as int);
    assert (low + 0x1_0000 * high) % 0x1_0000 == low;
    OneThenOne([0x07, a, b, c, e, 0x09, usage] + rest, 5);
    OneThenOne([0x09, usage, 0x04] + rest, 2);
  }

  lemma OneThenOne(d: seq<byte>, second: nat)
    requires 0 < second < |d| && NextIndex(d, 0) == second
    ensures var f := See(d, 0, Found(None, None));
      var g := See(d, second, f);
      !f.Complete() && g.Complete() ==> Scan(d, 0, Found(None, None)) == g
  {
  }

  /** The same byte inside the data of an item is no key. */
  lemma ReportIdInData()
    ensures NumberedReports([0x85, 0x01]) && !NumberedReports([0x06, 0x85, 0x85])
  {
    assert Visits([0x85, 0x01], 0)[0] == 0 && Visited([0x85, 0x01], 0) == 0x85;
    var d: seq<byte> := [0x06, 0x85, 0x85];
    assert NextIndex(d, 0) == 3;
    assert Visits(d, 3) == [];
    assert Visits(d, 0) == [0];
  }

  lemma NoneInNothing()
    ensures LastOfEach([]) == Found(None, None) && EncodeAll([]) == []
  {
  }

  lemma LastGrows(items: seq<Item>, n: nat, command: byte)
    requires n <= |items| && Last(items[..n], command).Some?
    ensures Last(items, command).Some?
  {
    LastExists(items[..n], command);
    LastExists(items, command);
  }
}
