/** hid_enumerate of the hidraw back end, with the rollback of a record whose USB node is
    missing, and the choice hid_open makes from the list. */
module Enumeration {
  import opened Bytes

  datatype Bus = Usb | Bluetooth | OtherBus

  /** The uevent text of a HID node in which ID, name and serial number were all found. */
  datatype UeventInfo = UeventInfo(bus: Bus, vendorId: u16, productId: u16, serial: string, name: string)

  /** What the USB nodes above a device say. */
  datatype UsbInfo = UsbInfo(
    manufacturer: Option<string>, product: Option<string>, release: u16, interfaceNumber: int)

  /** One entry of the udev enumeration as the source queries it: the device node, the HID
      parent and what parsing its uevent gave, and the USB parent. */
  datatype UdevEntry = UdevEntry(
    path: Option<string>, hasHidParent: bool, info: Option<UeventInfo>, usb: Option<UsbInfo>)

  datatype Record = Record(
    path: Option<string>, vendorId: u16, productId: u16, serial: string,
    release: u16, interfaceNumber: int, manufacturer: Option<string>, product: Option<string>)

  predicate Usable(e: UdevEntry) {
    && e.hasHidParent
    && e.info.Some?
    && (e.info.value.bus.Bluetooth? || (e.info.value.bus.Usb? && e.usb.Some?))
  }

  predicate Matches(e: UdevEntry, vendorId: u16, productId: u16)
    requires e.info.Some?
  {
    && (vendorId == 0 || vendorId == e.info.value.vendorId)
    && (productId == 0 || productId == e.info.value.productId)
  }

  function RecordOf(e: UdevEntry): Record
    requires Usable(e)
  {
    var i := e.info.value;
    if i.bus.Usb? then
      var u := e.usb.value;
      Record(e.path, i.vendorId, i.productId, i.serial, u.release, u.interfaceNumber, u.manufacturer, u.product)
    else
      Record(e.path, i.vendorId, i.productId, i.serial, 0, -1, Some(""), Some(i.name))
  }

  /** The records of the usable entries that match, in order. */
  function Enumerate(entries: seq<UdevEntry>, vendorId: u16, productId: u16): seq<Record> {
    if entries == [] then []
    else
      var e := entries[|entries| - 1];
      Enumerate(entries[..|entries| - 1], vendorId, productId)
      + if Usable(e) && Matches(e, vendorId, productId) then [RecordOf(e)] else []
  }

  class DeviceInfo {
    var path: Option<string>
    var vendorId: u16
    var productId: u16
    var serial: string
    var release: u16
    var interfaceNumber: int
    var manufacturer: Option<string>
    var product: Option<string>
    var next: DeviceInfo?

    /** calloc */
    constructor ()
      ensures next == null
    {
      path, serial, manufacturer, product := None, "", None, None;
      vendorId, productId, release, interfaceNumber := 0, 0, 0, 0;
      next := null;
    }

    function Value(): Record
      reads `path, `vendorId, `productId, `serial, `release, `interfaceNumber, `manufacturer, `product
    {
      Record(path, vendorId, productId, serial, release, interfaceNumber, manufacturer, product)
    }

    /** The part of the record that comes from the uevent. */
    method FillIds(path: Option<string>, info: UeventInfo)
      modifies `path, `vendorId, `productId, `serial, `release, `interfaceNumber
      ensures Value() == Record(path, info.vendorId, info.productId, info.serial, 0, -1,
                                old(manufacturer), old(product))
    {
      this.path := path;
      vendorId, productId := info.vendorId, info.productId;
      serial := info.serial;
      release := 0;
      interfaceNumber := -1;
    }

    method FillUsb(u: UsbInfo)
      modifies `manufacturer, `product, `release, `interfaceNumber
      ensures Value() == old(Value()).(manufacturer := u.manufacturer, product := u.product,
                                       release := u.release, interfaceNumber := u.interfaceNumber)
    {
      manufacturer, product := u.manufacturer, u.product;
      release, interfaceNumber := u.release, u.interfaceNumber;
    }

    method FillBluetooth(name: string)
      modifies `manufacturer, `product
      ensures Value() == old(Value()).(manufacturer := Some(""), product := Some(name))
    {
      manufacturer, product := Some(""), Some(name);
    }
  }

  /** `nodes` is the list that starts at `root`. */
  ghost predicate IsList(root: DeviceInfo?, nodes: seq<DeviceInfo>)
    reads nodes`next
  {
    && root == NodeAt(nodes, 0)
    && (forall i :: 0 <= i < |nodes| ==> nodes[i].next == NodeAt(nodes, i + 1))
    && (forall i, j :: 0 <= i < j < |nodes| ==> nodes[i] != nodes[j])
  }

  ghost function NodeAt(nodes: seq<DeviceInfo>, i: nat): DeviceInfo? {
    if i < |nodes| then nodes[i] else null
  }

  ghost function Values(nodes: seq<DeviceInfo>): (v: seq<Record>)
    reads nodes`path, nodes`vendorId, nodes`productId, nodes`serial
    reads nodes`release, nodes`interfaceNumber, nodes`manufacturer, nodes`product
    ensures |v| == |nodes|
  {
    if nodes == [] then [] else Values(nodes[..|nodes| - 1]) + [nodes[|nodes| - 1].Value()]
  }

  lemma ValuesAppend(nodes: seq<DeviceInfo>, n: DeviceInfo)
    ensures Values(nodes + [n]) == Values(nodes) + [n.Value()]
  {
    assert (nodes + [n])[..|nodes|] == nodes;
  }

  ghost function Elements(nodes: seq<DeviceInfo>): set<DeviceInfo> {
    set n | n in nodes
  }

  ghost function LastOf(nodes: seq<DeviceInfo>): DeviceInfo? {
    if nodes == [] then null else nodes[|nodes| - 1]
  }

  /** Links `tmp` in behind `curDev`, the last node. */
  method LinkIn(root: DeviceInfo?, curDev: DeviceInfo?, tmp: DeviceInfo, ghost nodes: seq<DeviceInfo>)
    returns (root': DeviceInfo?)
    requires IsList(root, nodes) && curDev == LastOf(nodes)
    requires tmp !in nodes
    modifies nodes`next, tmp`next
    ensures IsList(root', nodes + [tmp])
    ensures Values(nodes) == old(Values(nodes))
  {
    hide Values;
    root' := root;
    if curDev != null {
      curDev.next := tmp;
    } else {
      root' := tmp;
    }
    tmp.next := null;
  }

  /** Takes the last node off again; `prevDev` is the one before it. */
  method TakeOff(root: DeviceInfo?, prevDev: DeviceInfo?, ghost nodes: seq<DeviceInfo>, ghost last: DeviceInfo)
    returns (root': DeviceInfo?, curDev: DeviceInfo?)
    requires IsList(root, nodes + [last]) && prevDev == LastOf(nodes)
    modifies nodes`next
    ensures IsList(root', nodes) && curDev == LastOf(nodes)
    ensures Values(nodes) == old(Values(nodes))
  {
    hide Values;
    ghost var all := nodes + [last];
    assert forall i :: 0 <= i < |nodes| ==> nodes[i] == all[i];
    root' := root;
    if prevDev != null {
      prevDev.next := null;
      curDev := prevDev;
    } else {
      root', curDev := null, null;
    }
  }

  /** A record with all its fields filled in: None if its USB node is missing. */
  method Fill(curDev: DeviceInfo, path: Option<string>, info: UeventInfo, usb: Option<UsbInfo>)
    returns (found: bool)
    requires info.bus.Usb? || info.bus.Bluetooth?
    modifies curDev`path, curDev`vendorId, curDev`productId, curDev`serial
    modifies curDev`release, curDev`interfaceNumber, curDev`manufacturer, curDev`product
    ensures var e := UdevEntry(path, true, Some(info), usb);
      found == Usable(e) && (found ==> curDev.Value() == RecordOf(e))
  {
    curDev.FillIds(path, info);
    found := true;
    match info.bus
    case Usb =>
      if usb.None? {
        return false;
      }
      curDev.FillUsb(usb.value);
    case Bluetooth =>
      curDev.FillBluetooth(info.name);
  }

  /** One matching entry.  Its record is linked in before its USB node is looked for; if there
      is none, it is freed and taken off again. */
  method AddRecord(root: DeviceInfo?, curDev: DeviceInfo?, path: Option<string>, info: UeventInfo,
                   usb: Option<UsbInfo>, ghost nodes: seq<DeviceInfo>)
    returns (root': DeviceInfo?, curDev': DeviceInfo?, ghost nodes': seq<DeviceInfo>, ghost freed: set<DeviceInfo>)
    requires IsList(root, nodes) && curDev == LastOf(nodes)
    requires info.bus.Usb? || info.bus.Bluetooth?
    modifies Elements(nodes)`next
    ensures IsList(root', nodes') && curDev' == LastOf(nodes')
    ensures fresh(Elements(nodes') - Elements(nodes)) && fresh(freed) && freed !! Elements(nodes')
    ensures var e := UdevEntry(path, true, Some(info), usb);
      Values(nodes') == old(Values(nodes)) + if Usable(e) then [RecordOf(e)] else []
  {
    hide Values, Usable, RecordOf, IsList;
    var tmp := new DeviceInfo();
    root' := LinkIn(root, curDev, tmp, nodes);
    var prevDev := curDev;
    curDev', nodes', freed := tmp, nodes + [tmp], {};
    var found := Fill(tmp, path, info, usb);
    ValuesAppend(nodes, tmp);
    if !found {
      root', curDev' := TakeOff(root', prevDev, nodes, tmp);
      nodes', freed := nodes, {tmp};
    }
  }

  /** One entry more. */
  lemma EnumerateNext(entries: seq<UdevEntry>, k: nat, vendorId: u16, productId: u16)
    requires k < |entries|
    ensures Enumerate(entries[..k + 1], vendorId, productId)
         == Enumerate(entries[..k], vendorId, productId)
            + if Usable(entries[k]) && Matches(entries[k], vendorId, productId) then [RecordOf(entries[k])] else []
    ensures !entries[k].hasHidParent || entries[k].info.None? || entries[k].info.value.bus.OtherBus? ==>
      !Usable(entries[k])
  {
    assert entries[..k + 1][..k] == entries[..k];
  }

  lemma EmptyList(entries: seq<UdevEntry>, vendorId: u16, productId: u16)
    ensures IsList(null, []) && Elements([]) == {}
    ensures Values([]) == Enumerate(entries[..0], vendorId, productId)
  {
  }

  /** Builds the list of the records.  `freed` has the nodes that were freed on the way. */
  method HidEnumerate(entries: seq<UdevEntry>, vendorId: u16, productId: u16)
    returns (root: DeviceInfo?, ghost nodes: seq<DeviceInfo>, ghost freed: set<DeviceInfo>)
    ensures IsList(root, nodes)
    ensures Values(nodes) == Enumerate(entries, vendorId, productId)
    ensures fresh(Elements(nodes)) && freed !! Elements(nodes)
  {
    hide Values, Enumerate, IsList, Usable, RecordOf;
    root, nodes, freed := null, [], {};
    var curDev: DeviceInfo? := null;
    EmptyList(entries, vendorId, productId);
    for k := 0 to |entries|
      invariant IsList(root, nodes) && curDev == LastOf(nodes)
      invariant Values(nodes) == Enumerate(entries[..k], vendorId, productId)
      invariant fresh(Elements(nodes)) && fresh(freed) && freed !! Elements(nodes)
    {
      var e := entries[k];
      EnumerateNext(entries, k, vendorId, productId);
      if !e.hasHidParent { continue; }
      if e.info.None? { continue; }
      var info := e.info.value;
      if info.bus != Usb && info.bus != Bluetooth { continue; }
      if (vendorId == 0 || vendorId == info.vendorId) && (productId == 0 || productId == info.productId) {
        ghost var gone: set<DeviceInfo>;
        root, curDev, nodes, gone := AddRecord(root, curDev, e.path, info, e.usb, nodes);
        freed := freed + gone;
      }
    }
    assert entries[..|entries|] == entries;
  }

  predicate Exact(r: Record, vendorId: u16, productId: u16, serial: Option<string>) {
    && r.vendorId == vendorId && r.productId == productId
    && (serial.Some? ==> r.serial == serial.value)
  }

  /** The first record, from `k` on, with exactly these ids and, if one is given, this serial
      number. */
  function FirstRecord(list: seq<Record>, k: nat, vendorId: u16, productId: u16, serial: Option<string>): Option<Record>
    decreases |list| - k
  {
    if k >= |list| then None
    else if Exact(list[k], vendorId, productId, serial) then Some(list[k])
    else FirstRecord(list, k + 1, vendorId, productId, serial)
  }

  lemma {:induction false} ValueAt(nodes: seq<DeviceInfo>, k: nat)
    requires k < |nodes|
    ensures Values(nodes)[k] == nodes[k].Value()
  {
    if k < |nodes| - 1 {
      ValueAt(nodes[..|nodes| - 1], k);
    }
  }

  /** The walk of hid_open over the list. */
  method SelectDevice(root: DeviceInfo?, vendorId: u16, productId: u16, serial: Option<string>,
                      ghost nodes: seq<DeviceInfo>)
    returns (curDev: DeviceInfo?)
    requires IsList(root, nodes)
    ensures FirstRecord(Values(nodes), 0, vendorId, productId, serial)
         == if curDev == null then None else Some(curDev.Value())
  {
    curDev := root;
    ghost var k := 0;
    while curDev != null
      invariant k <= |nodes| && curDev == NodeAt(nodes, k)
      invariant FirstRecord(Values(nodes), 0, vendorId, productId, serial)
             == FirstRecord(Values(nodes), k, vendorId, productId, serial)
      decreases |nodes| - k
    {
      ValueAt(nodes, k);
      if curDev.vendorId == vendorId && curDev.productId == productId {
        if serial.Some? {
          if serial.value == curDev.serial {
            break;
          }
        } else {
          break;
        }
      }
      curDev := curDev.next;
      k := k + 1;
    }
  }

  /** The position of an entry's record in the list. */
  function Rank(entries: seq<UdevEntry>, k: nat, vendorId: u16, productId: u16): nat
    requires k <= |entries|
  {
    |Enumerate(entries[..k], vendorId, productId)|
  }

  predicate Listed(e: UdevEntry, vendorId: u16, productId: u16) {
    Usable(e) && Matches(e, vendorId, productId)
  }

  /** The list is the filter: every listed entry has its record, at its rank. */
  lemma {:induction false} ListedAt(entries: seq<UdevEntry>, vendorId: u16, productId: u16, k: nat)
    requires k < |entries| && Listed(entries[k], vendorId, productId)
    ensures var rank := Rank(entries, k, vendorId, productId);
      var list := Enumerate(entries, vendorId, productId);
      rank < |list| && list[rank] == RecordOf(entries[k])
    decreases |entries|
  {
    var n := |entries| - 1;
    if k < n {
      assert entries[..n][..k] == entries[..k];
      ListedAt(entries[..n], vendorId, productId, k);
    }
  }

  /** And nothing else is in it: every record comes from a listed entry, and later records
      from later entries. */
  lemma {:induction false} ComesFrom(entries: seq<UdevEntry>, vendorId: u16, productId: u16, rank: nat)
    returns (k: nat)
    requires rank < |Enumerate(entries, vendorId, productId)|
    ensures k < |entries| && Listed(entries[k], vendorId, productId)
    ensures Enumerate(entries, vendorId, productId)[rank] == RecordOf(entries[k])
    ensures Rank(entries, k, vendorId, productId) == rank
    decreases |entries|
  {
    var n := |entries| - 1;
    if rank < |Enumerate(entries[..n], vendorId, productId)| {
      k := ComesFrom(entries[..n], vendorId, productId, rank);
      assert entries[..n][..k] == entries[..k];
    } else {
      k := n;
    }
  }

  /** The first usable entry, from `k` on, with these ids and this serial number. */
  function FirstUsable(entries: seq<UdevEntry>, k: nat, vendorId: u16, productId: u16,
                       serial: Option<string>): Option<Record>
    decreases |entries| - k
  {
    if k >= |entries| then None
    else if Usable(entries[k]) && Exact(RecordOf(entries[k]), vendorId, productId, serial)
    then Some(RecordOf(entries[k]))
    else FirstUsable(entries, k + 1, vendorId, productId, serial)
  }

  lemma {:induction false} SelectsFrom(entries: seq<UdevEntry>, k: nat, vendorId: u16, productId: u16,
                                       serial: Option<string>)
    requires k <= |entries|
    ensures FirstRecord(Enumerate(entries, vendorId, productId), Rank(entries, k, vendorId, productId),
                        vendorId, productId, serial)
         == FirstUsable(entries, k, vendorId, productId, serial)
    decreases |entries| - k
  {
    if k == |entries| {
      assert entries[..k] == entries;
    } else {
      assert entries[..k + 1][..k] == entries[..k];
      if Listed(entries[k], vendorId, productId) {
        ListedAt(entries, vendorId, productId, k);
      }
      SelectsFrom(entries, k + 1, vendorId, productId, serial);
    }
  }

  /** What hid_open opens is the first usable device with exactly these ids and, if one is
      given, this serial number: the list in between and its wildcards make no difference. */
  lemma OpenSelectsFirst(entries: seq<UdevEntry>, vendorId: u16, productId: u16, serial: Option<string>)
    ensures FirstRecord(Enumerate(entries, vendorId, productId), 0, vendorId, productId, serial)
         == FirstUsable(entries, 0, vendorId, productId, serial)
  {
    assert entries[..0] == [];
    SelectsFrom(entries, 0, vendorId, productId, serial);
  }

  /** What an entry has to be for hid_open to take it, in the entry's own fields. */
  predicate Wanted(e: UdevEntry, vendorId: u16, productId: u16, serial: Option<string>) {
    && e.hasHidParent && e.info.Some?
    && (e.info.value.bus == Bluetooth || (e.info.value.bus == Usb && e.usb.Some?))
    && e.info.value.vendorId == vendorId && e.info.value.productId == productId
    && (serial.Some? ==> e.info.value.serial == serial.value)
  }

  /** Entry `k` is the first one that is wanted. */
  predicate FirstWanted(entries: seq<UdevEntry>, k: nat, vendorId: u16, productId: u16, serial: Option<string>) {
    && k < |entries| && Wanted(entries[k], vendorId, productId, serial)
    && forall j :: 0 <= j < k ==> !Wanted(entries[j], vendorId, productId, serial)
  }

  lemma {:induction false} FirstUsableIs(entries: seq<UdevEntry>, from: nat, vendorId: u16, productId: u16,
                                         serial: Option<string>)
    requires from <= |entries|
    requires forall j :: 0 <= j < from ==> !Wanted(entries[j], vendorId, productId, serial)
    ensures var first := FirstUsable(entries, from, vendorId, productId, serial);
      && (first.None? ==> forall j :: 0 <= j < |entries| ==> !Wanted(entries[j], vendorId, productId, serial))
      && (first.Some? ==> exists k: nat :: FirstWanted(entries, k, vendorId, productId, serial)
                                      && first.value.path == entries[k].path)
    decreases |entries| - from
  {
    if from < |entries| {
      if Wanted(entries[from], vendorId, productId, serial) {
        assert FirstWanted(entries, from, vendorId, productId, serial);
      } else {
        FirstUsableIs(entries, from + 1, vendorId, productId, serial);
      }
    }
  }

  /** What a listed device's record holds, in the fields of its entry; and that it is listed exactly
      if the entry has a HID parent, was parsed, is on a known bus with its USB parent there, and
      has the ids asked for, where an id of 0 asks for any. */
  lemma RecordHolds(entries: seq<UdevEntry>, vendorId: u16, productId: u16, k: nat)
    requires k < |entries| && entries[k].hasHidParent && entries[k].info.Some?
    requires var i := entries[k].info.value;
      && (i.bus == Bluetooth || (i.bus == Usb && entries[k].usb.Some?))
      && (vendorId == 0 || i.vendorId == vendorId) && (productId == 0 || i.productId == productId)
    ensures var list := Enumerate(entries, vendorId, productId);
      var rank := Rank(entries, k, vendorId, productId);
      var e, i := entries[k], entries[k].info.value;
      && rank < |list|
      && list[rank].path == e.path
      && list[rank].vendorId == i.vendorId && list[rank].productId == i.productId
      && list[rank].serial == i.serial
      && (i.bus == Usb ==>
            && list[rank].manufacturer == e.usb.value.manufacturer && list[rank].product == e.usb.value.product
            && list[rank].release == e.usb.value.release
            && list[rank].interfaceNumber == e.usb.value.interfaceNumber)
      && (i.bus == Bluetooth ==>
            && list[rank].manufacturer == Some("") && list[rank].product == Some(i.name)
            && list[rank].release == 0 && list[rank].interfaceNumber == -1)
  {
    hide Enumerate;
    ListedAt(entries, vendorId, productId, k);
  }

  lemma OnlyWantedListed(entries: seq<UdevEntry>, vendorId: u16, productId: u16, rank: nat)
    returns (k: nat)
    requires rank < |Enumerate(entries, vendorId, productId)|
    ensures k < |entries| && entries[k].hasHidParent && entries[k].info.Some?
    ensures var i := entries[k].info.value;
      && (i.bus == Bluetooth || (i.bus == Usb && entries[k].usb.Some?))
      && (vendorId == 0 || i.vendorId == vendorId) && (productId == 0 || i.productId == productId)
    ensures Enumerate(entries, vendorId, productId)[rank].path == entries[k].path
    ensures Rank(entries, k, vendorId, productId) == rank
  {
    k := ComesFrom(entries, vendorId, productId, rank);
  }

  /** hid_open: enumerates, selects, and opens the selected path.  Without a match, or if the
      match has no device node, there is nothing to open. */
  method HidOpen(entries: seq<UdevEntry>, vendorId: u16, productId: u16, serial: Option<string>)
    returns (pathToOpen: Option<string>)
    ensures forall k: nat :: FirstWanted(entries, k, vendorId, productId, serial) ==> pathToOpen == entries[k].path
    ensures (forall k :: 0 <= k < |entries| ==> !Wanted(entries[k], vendorId, productId, serial)) ==>
      pathToOpen == None
    ensures var first := FirstUsable(entries, 0, vendorId, productId, serial);
      pathToOpen == if first.None? then None else first.value.path
  {
    hide Enumerate, FirstRecord, IsList, Values, FirstUsable;
    var root, nodes, freed := HidEnumerate(entries, vendorId, productId);
    var curDev := SelectDevice(root, vendorId, productId, serial, nodes);
    OpenSelectsFirst(entries, vendorId, productId, serial);
    FirstUsableIs(entries, 0, vendorId, productId, serial);
    pathToOpen := if curDev == null then None else curDev.path;
  }
}
