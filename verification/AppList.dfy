/** The parser of get_app_list.  A response is a version byte and records: a byte that is
    skipped, four bytes of flags, two 32-byte hashes, and a name behind its length byte. */
module AppList {
  import opened Bytes
  import opened FrameIoApdu

  datatype AppItem = AppItem(name: seq<byte>, hash: seq<byte>, hashCodeData: seq<byte>, flags: u32) {
    predicate Valid() {
      |name| < 0x100 && |hash| == 32 && |hashCodeData| == 32
    }

    /** The record of this item, with `skipped` as its first byte. */
    function Encode(skipped: byte): (s: seq<byte>)
      requires Valid()
      ensures |s| == 70 + |name|
    {
      [skipped] + U32Bytes(flags) + hashCodeData + hash + [|name|] + name
    }
  }

  ghost predicate AllValid(items: seq<AppItem>) {
    forall i :: 0 <= i < |items| ==> items[i].Valid()
  }

  /** The records of a list; `skipped` has the first byte of each. */
  function EncodeAll(items: seq<AppItem>, skipped: seq<byte>): seq<byte>
    requires |items| == |skipped| && AllValid(items)
  {
    if items == [] then [] else items[0].Encode(skipped[0]) + EncodeAll(items[1..], skipped[1..])
  }

  /** The record at `offset`, if all its ranges are inside the response. */
  function ParseItem(d: seq<byte>, offset: nat): (r: Option<AppItem>)
    ensures r.Some? ==> r.value.Valid() && offset + 70 + |r.value.name| <= |d|
  {
    if offset + 70 > |d| then None
    else
      var nameLen: int := d[offset + 69];
      if offset + 70 + nameLen > |d| then None
      else Some(AppItem(
        d[offset + 70..offset + 70 + nameLen],
        d[offset + 37..offset + 69],
        d[offset + 5..offset + 37],
        U32At(d, offset + 1)))
  }

  /** The loop from `offset` on. */
  function ParseFrom(d: seq<byte>, offset: nat): Result<seq<AppItem>>
    requires offset <= |d|
    decreases |d| - offset
  {
    if offset == |d| then Ok([])
    else
      match ParseItem(d, offset)
      case None => Err(OutOfRange)
      case Some(item) =>
        match ParseFrom(d, offset + 70 + |item.name|)
        case Err(e) => Err(e)
        case Ok(rest) => Ok([item] + rest)
  }

  /** An empty response is an empty list; the version byte is not looked at. */
  function Parse(d: seq<byte>): Result<seq<AppItem>> {
    if d == [] then Ok([]) else ParseFrom(d, 1)
  }

  /** A range past the end of the response raises std::out_of_range. */
  method ParseAppList(response: seq<byte>) returns (r: Result<seq<AppItem>>)
    ensures r == Parse(response)
  {
    if response == [] {
      return Ok([]);
    }
    var out: seq<AppItem> := [];
    var offset := 1;
    PrependNone(ParseFrom(response, 1));
    while offset != |response|
      invariant 1 <= offset <= |response|
      invariant Parse(response) == Prepend(out, ParseFrom(response, offset))
      decreases |response| - offset
    {
      ghost var start := offset;
      offset := offset + 1;
      if offset + 4 > |response| { return Err(OutOfRange); }
      var flags := U32At(response, offset);
      offset := offset + 4;
      if offset + 32 > |response| { return Err(OutOfRange); }
      var hashCodeData := response[offset..offset + 32];
      offset := offset + 32;
      if offset + 32 > |response| { return Err(OutOfRange); }
      var hash := response[offset..offset + 32];
      offset := offset + 32;
      if offset >= |response| { return Err(OutOfRange); }
      var nameLen := response[offset];
      if offset + 1 + nameLen > |response| { return Err(OutOfRange); }
      var name := response[offset + 1..offset + 1 + nameLen];
      offset := offset + 1 + nameLen;
      var item := AppItem(name, hash, hashCodeData, flags);
      assert ParseItem(response, start) == Some(item);
      assert out + ([item] + []) == out + [item];
      PrependOne(out, item, ParseFrom(response, offset));
      out := out + [item];
    }
    r := Ok(out);
    assert out + [] == out;
  }

  function Prepend(out: seq<AppItem>, r: Result<seq<AppItem>>): Result<seq<AppItem>> {
    match r
    case Err(e) => Err(e)
    case Ok(rest) => Ok(out + rest)
  }

  lemma PrependNone(r: Result<seq<AppItem>>)
    ensures Prepend([], r) == r
  {
    if r.Ok? {
      assert [] + r.value == r.value;
    }
  }

  lemma PrependOne(out: seq<AppItem>, item: AppItem, r: Result<seq<AppItem>>)
    ensures Prepend(out, Prepend([item], r)) == Prepend(out + [item], r)
  {
    if r.Ok? {
      assert out + ([item] + r.value) == out + [item] + r.value;
    }
  }

  lemma ParsesItem(before: seq<byte>, item: AppItem, skipped: byte, after: seq<byte>)
    requires item.Valid()
    ensures ParseItem(before + item.Encode(skipped) + after, |before|) == Some(item)
  {
    var record := item.Encode(skipped);
    var d := before + record + after;
    var n := |item.name|;
    SliceInside(before, record, after, 1, 5);
    SliceInside(before, record, after, 5, 37);
    SliceInside(before, record, after, 37, 69);
    SliceInside(before, record, after, 70, 70 + n);
    RecordParts(item, skipped);
    assert d[|before| + 69] == record[69];
    U32BytesAt(item.flags);
    U32AtSlice(d, |before| + 1);
  }

  lemma U32AtSlice(d: seq<byte>, pos: nat)
    requires pos + 4 <= |d|
    ensures U32At(d, pos) == U32At(d[pos..pos + 4], 0)
  {
  }

  lemma RecordParts(item: AppItem, skipped: byte)
    requires item.Valid()
    ensures var record := item.Encode(skipped);
      && record[1..5] == U32Bytes(item.flags)
      && record[5..37] == item.hashCodeData
      && record[37..69] == item.hash
      && record[69] == |item.name|
      && record[70..70 + |item.name|] == item.name
  {
  }

  /** Where the record number `k` begins: each has 70 bytes and its name. */
  function RecordStart(items: seq<AppItem>, k: nat): nat
    requires k <= |items|
  {
    if k == 0 then 1 else RecordStart(items, k - 1) + 70 + |items[k - 1].name|
  }

  /** Which bytes of the response from `o` on the fields of an item are: flags with the most
      significant byte first, then the hash of code and data, the hash, the length of the name, and
      the name. */
  predicate Holds(d: seq<byte>, o: nat, item: AppItem) {
    && o + 70 + |item.name| <= |d|
    && item.flags
       == 0x100_0000 * (d[o + 1] as int) + 0x1_0000 * (d[o + 2] as int) + 0x100 * (d[o + 3] as int) + d[o + 4]
    && item.hashCodeData == d[o + 5..o + 37]
    && item.hash == d[o + 37..o + 69]
    && |item.name| == d[o + 69]
    && item.name == d[o + 70..o + 70 + |item.name|]
  }

  lemma ItemHolds(d: seq<byte>, offset: nat)
    requires ParseItem(d, offset).Some?
    ensures Holds(d, offset, ParseItem(d, offset).value)
  {
  }

  lemma {:induction false} FieldsFrom(d: seq<byte>, offset: nat, items: seq<AppItem>, k: nat)
    requires offset <= |d| && ParseFrom(d, offset) == Ok(items) && k < |items|
    ensures offset + RecordStart(items, k) > 0
    ensures Holds(d, offset + RecordStart(items, k) - 1, items[k])
    decreases k
  {
    hide Holds, ParseItem;
    if k == 0 {
      ItemHolds(d, offset);
    } else {
      var next := offset + 70 + |items[0].name|;
      assert items[1..] == ParseFrom(d, next).value;
      FieldsFrom(d, next, items[1..], k - 1);
      StartShifts(items, k);
    }
  }

  lemma {:induction false} StartShifts(items: seq<AppItem>, k: nat)
    requires 0 < k <= |items|
    ensures RecordStart(items, k) == 70 + |items[0].name| + RecordStart(items[1..], k - 1)
    decreases k
  {
    if k > 1 {
      StartShifts(items, k - 1);
    }
  }

  /** Every item of the result holds what the bytes of its record say. */
  lemma FieldsAt(d: seq<byte>, items: seq<AppItem>, k: nat)
    requires Parse(d) == Ok(items) && k < |items|
    ensures Holds(d, RecordStart(items, k), items[k])
  {
    hide Holds;
    FieldsFrom(d, 1, items, k);
  }

  /** What does not parse raises std::out_of_range. */
  lemma {:induction false} ParseRaises(d: seq<byte>, offset: nat)
    requires offset <= |d|
    ensures ParseFrom(d, offset).Err? ==> ParseFrom(d, offset) == Err(OutOfRange)
    decreases |d| - offset
  {
    if offset < |d| && ParseItem(d, offset).Some? {
      ParseRaises(d, offset + 70 + |ParseItem(d, offset).value.name|);
    }
  }

  lemma ParseStep(d: seq<byte>, offset: nat)
    requires offset < |d| && ParseItem(d, offset).Some?
    ensures var item := ParseItem(d, offset).value;
      ParseFrom(d, offset) == Prepend([item], ParseFrom(d, offset + 70 + |item.name|))
  {
  }

  lemma EncodeAllFirst(items: seq<AppItem>, skipped: seq<byte>)
    requires |items| == |skipped| && AllValid(items) && items != []
    ensures AllValid(items[1..])
    ensures EncodeAll(items, skipped) == items[0].Encode(skipped[0]) + EncodeAll(items[1..], skipped[1..])
  {
  }

  /** One turn of the loop on an encoded list. */
  lemma ParsesFirst(before: seq<byte>, items: seq<AppItem>, skipped: seq<byte>)
    requires |items| == |skipped| && AllValid(items) && items != []
    ensures var d := before + EncodeAll(items, skipped);
      var next := before + items[0].Encode(skipped[0]);
      && AllValid(items[1..])
      && d == next + EncodeAll(items[1..], skipped[1..])
      && ParseFrom(d, |before|) == Prepend([items[0]], ParseFrom(d, |next|))
  {
    hide ParseFrom, ParseItem, AppItem.Encode, EncodeAll, Prepend;
    EncodeAllFirst(items, skipped);
    var record, after := items[0].Encode(skipped[0]), EncodeAll(items[1..], skipped[1..]);
    var d := before + EncodeAll(items, skipped);
    assert d == before + record + after;
    ParsesItem(before, items[0], skipped[0], after);
    ParseStep(d, |before|);
  }

  lemma {:induction false} ParseFromEncode(before: seq<byte>, items: seq<AppItem>, skipped: seq<byte>)
    requires |items| == |skipped| && AllValid(items)
    ensures ParseFrom(before + EncodeAll(items, skipped), |before|) == Ok(items)
    decreases |items|
  {
    if items != [] {
      hide ParseFrom, EncodeAll, AllValid, AppItem.Encode;
      ParsesFirst(before, items, skipped);
      ParseFromEncode(before + items[0].Encode(skipped[0]), items[1..], skipped[1..]);
      assert [items[0]] + items[1..] == items;
    }
  }

  /** Parsing undoes encoding, whatever the version and the skipped bytes. */
  lemma ParseEncode(version: byte, items: seq<AppItem>, skipped: seq<byte>)
    requires |items| == |skipped| && AllValid(items)
    ensures Parse([version] + EncodeAll(items, skipped)) == Ok(items)
  {
    ParseFromEncode([version], items, skipped);
  }

  lemma ItemEncoded(d: seq<byte>, offset: nat)
    requires ParseItem(d, offset).Some?
    ensures var item := ParseItem(d, offset).value;
      item.Encode(d[offset]) == d[offset..offset + 70 + |item.name|]
  {
    var item := ParseItem(d, offset).value;
    var n := |item.name|;
    var record := d[offset..offset + 70 + n];
    U32AtBytes(d, offset + 1);
    SliceOfSlice(d, offset, offset + 70 + n, 1, 5);
    SliceOfSlice(d, offset, offset + 70 + n, 5, 37);
    SliceOfSlice(d, offset, offset + 70 + n, 37, 69);
    SliceOfSlice(d, offset, offset + 70 + n, 70, 70 + n);
    assert record[..1] == [d[offset]] && record[69..70] == [n];
    Sliced(record);
  }

  lemma Sliced(s: seq<byte>)
    requires |s| >= 70
    ensures s == s[..1] + s[1..5] + s[5..37] + s[37..69] + s[69..70] + s[70..|s|]
  {
  }

  lemma {:induction false} ParsedFromEncoded(d: seq<byte>, offset: nat) returns (skipped: seq<byte>)
    requires offset <= |d| && ParseFrom(d, offset).Ok?
    ensures var items := ParseFrom(d, offset).value;
      && |skipped| == |items|
      && AllValid(items)
      && d[offset..] == EncodeAll(items, skipped)
    decreases |d| - offset
  {
    hide ParseItem, AppItem.Encode;
    if offset == |d| {
      skipped := [];
    } else {
      var item := ParseItem(d, offset).value;
      var next := offset + 70 + |item.name|;
      var rest := ParsedFromEncoded(d, next);
      ItemEncoded(d, offset);
      skipped := [d[offset]] + rest;
      var items := ParseFrom(d, offset).value;
      assert items[1..] == ParseFrom(d, next).value && skipped[1..] == rest;
      assert d[offset..] == d[offset..next] + d[next..];
    }
  }

  /** And only encodings parse: a non-empty response is accepted exactly if it is the encoding
      of some list, which then is the result. */
  lemma ParseIff(d: seq<byte>, items: seq<AppItem>)
    requires d != []
    ensures Parse(d) == Ok(items) <==>
      exists skipped: seq<byte> ::
        && |skipped| == |items|
        && AllValid(items)
        && d == d[..1] + EncodeAll(items, skipped)
  {
    hide ParseFrom, EncodeAll, AllValid;
    if Parse(d) == Ok(items) {
      var skipped := ParsedFromEncoded(d, 1);
      assert d == d[..1] + d[1..];
    }
    if skipped: seq<byte> :|
      && |skipped| == |items|
      && AllValid(items)
      && d == d[..1] + EncodeAll(items, skipped)
    {
      ParseFromEncode(d[..1], items, skipped);
    }
  }
}
