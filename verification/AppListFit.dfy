/** Which lists of apps come through get_app_list, by the lengths of their names. */
module AppListFit {
  import opened Bytes
  import opened HidppDevice
  import opened FrameIoApdu
  import opened Reassembly
  import opened AppList
  import opened Commands

  /** The lengths of the names of a list. */
  function NameLengths(items: seq<AppItem>): (lens: seq<nat>)
    ensures |lens| == |items|
  {
    seq(|items|, i requires 0 <= i < |items| => |items[i].name|)
  }

  /** The bytes their records take. */
  function RecordsSize(lens: seq<nat>): nat {
    if lens == [] then 0 else 70 + lens[0] + RecordsSize(lens[1..])
  }

  /** The lengths of a list that a response can carry. */
  predicate Sendable(lens: seq<nat>) {
    (forall i :: 0 <= i < |lens| ==> lens[i] < 0x100) && 5 + RecordsSize(lens) <= 0xFFFF
  }

  lemma {:induction false} EncodedSize(items: seq<AppItem>, skipped: seq<byte>)
    requires |items| == |skipped| && AllValid(items)
    ensures |EncodeAll(items, skipped)| == RecordsSize(NameLengths(items))
  {
    if items != [] {
      EncodeAllFirst(items, skipped);
      EncodedSize(items[1..], skipped[1..]);
      assert NameLengths(items)[1..] == NameLengths(items[1..]);
    }
  }

  /** `stream` is a successful response that carries this list. */
  ghost predicate Carries(stream: seq<byte>, version: byte, items: seq<AppItem>, skipped: seq<byte>)
    requires |items| == |skipped| && AllValid(items)
  {
    var data := [version] + EncodeAll(items, skipped);
    && IsResponse(stream, |data| + 4)
    && stream[2..|data| + 2] == data
    && U16At(stream, |data| + 2) == CODE_SUCCESS
  }

  /** What get_app_list makes of the exchange. */
  function Decoded(script: nat -> HidRead, pos: nat): Result<seq<AppItem>> {
    match Receive(CLEAN, script, pos).result
    case Err(e) => Err(e)
    case Ok(reply) => DecodeAppList(reply)
  }

  /** No app, or one with a name of at most 44 bytes. */
  predicate Fits(lens: seq<nat>) {
    lens == [] || (|lens| == 1 && lens[0] <= 44)
  }

  /** A list of at most one app with a name of at most 44 bytes is returned as it is, whatever
      the version, the skipped bytes and the padding. */
  lemma AppListEndToEnd(script: nat -> HidRead, pos: nat, stream: seq<byte>,
                        version: byte, items: seq<AppItem>, skipped: seq<byte>)
    requires |items| == |skipped| && AllValid(items) && Fits(NameLengths(items))
    requires Carries(stream, version, items, skipped) && Delivers(script, pos, stream)
    ensures Decoded(script, pos) == Ok(items)
  {
    hide Receive, Delivers, Parse;
    var data := [version] + EncodeAll(items, skipped);
    if items != [] {
      EncodeAllFirst(items, skipped);
    }
    ExactReply(script, pos, stream, |data| + 4);
    ParseEncode(version, items, skipped);
  }

  /** A list with these name lengths that goes wrong if they do not fit: almost all its bytes
      are 1. */
  function OnesItem(n: nat): (item: AppItem)
    requires n < 0x100
    ensures item.Valid()
  {
    AppItem(seq(n, _ => 1), seq(32, _ => 1), seq(32, _ => 1), 0x0101_0101)
  }

  function OnesItems(lens: seq<nat>): (items: seq<AppItem>)
    requires Sendable(lens)
    ensures |items| == |lens|
    ensures forall i :: 0 <= i < |lens| ==> items[i] == OnesItem(lens[i])
  {
    seq(|lens|, i requires 0 <= i < |lens| => OnesItem(lens[i]))
  }

  lemma OnesRecord(n: nat, skipped: byte, i: nat)
    requires n < 0x100 && i < 70 + n && i != 0 && i != 69
    ensures OnesItem(n).Encode(skipped)[i] == 1
  {
    RecordParts(OnesItem(n), skipped);
    var record := OnesItem(n).Encode(skipped);
    assert U32Bytes(0x0101_0101) == [1, 1, 1, 1];
    if i < 5 {
      assert record[i] == record[1..5][i - 1];
    } else if i < 37 {
      assert record[i] == record[5..37][i - 5];
    } else if i < 69 {
      assert record[i] == record[37..69][i - 37];
    } else {
      assert record[i] == record[70..70 + n][i - 70];
    }
  }

  /** Where the list goes wrong: a position of the response inside its second gap. */
  function Spoiled(lens: seq<nat>): nat {
    if |lens| > 1 && lens[0] == 45 then 119 else 118
  }

  /** Whatever the skipped bytes, the list has a 1 there. */
  lemma OnesSpoiled(lens: seq<nat>, skipped: seq<byte>)
    requires Sendable(lens) && !Fits(lens) && lens != [45] && |skipped| == |lens|
    ensures AllValid(OnesItems(lens))
    ensures var records := EncodeAll(OnesItems(lens), skipped);
      Spoiled(lens) - 3 < |records| && records[Spoiled(lens) - 3] == 1
  {
    hide AppItem.Encode;
    var items := OnesItems(lens);
    var i := Spoiled(lens) - 3;
    EncodeAllFirst(items, skipped);
    if lens[0] > 45 {
      OnesRecord(lens[0], skipped[0], i);
    } else {
      EncodeAllFirst(items[1..], skipped[1..]);
      OnesRecord(lens[1], skipped[1], i - 70 - lens[0]);
    }
  }

  /** The response that carries the list of ones. */
  function OnesResponse(lens: seq<nat>): (stream: seq<byte>)
    requires Sendable(lens)
    ensures var items := OnesItems(lens);
      AllValid(items) && NameLengths(items) == lens && Carries(stream, 1, items, seq(|lens|, _ => 1))
  {
    var items, skipped := OnesItems(lens), seq(|lens|, _ => 1);
    assert NameLengths(items) == lens;
    EncodedSize(items, skipped);
    Response([1] + EncodeAll(items, skipped), CODE_SUCCESS)
  }

  /** The bytes 118 to 122 of an assembled response are zero. */
  lemma SecondGap(script: nat -> HidRead, pos: nat, stream: seq<byte>, total: nat, i: nat)
    requires IsResponse(stream, total) && Delivers(script, pos, stream)
    requires 118 <= i <= 119 && i + 1 < total
    requires Receive(CLEAN, script, pos).result.Ok?
    ensures var reply := Receive(CLEAN, script, pos).result.value;
      && |reply.data| == total - 4
      && (i < total - 2 ==> reply.data[i - 2] == 0)
      && (i == total - 2 ==> reply.status < 0x100)
  {
    hide Receive, Delivers, Assembled, FramesRead, Ceil;
    ReceiveIs(CLEAN, script, pos, stream, total);
    var g := FramesRead(0, total);
    AssembledIs(stream, 0, g);
    assert Cell(stream, 0, g, i) == 0;
  }

  lemma OneAppSize(n: nat)
    ensures RecordsSize([n]) == 70 + n
  {
    assert [n][1..] == [];
  }

  lemma OnesNotReturned(script: nat -> HidRead, pos: nat, lens: seq<nat>)
    requires Sendable(lens) && !Fits(lens) && Delivers(script, pos, OnesResponse(lens))
    ensures Decoded(script, pos) != Ok(OnesItems(lens))
  {
    hide Receive, Delivers, EncodeAll, OnesItems, RecordsSize, IsResponse, OnesResponse;
    var stream, items := OnesResponse(lens), OnesItems(lens);
    var total := |[1] + EncodeAll(items, seq(|lens|, _ => 1))| + 4;
    if Decoded(script, pos) == Ok(items) {
      var d := Receive(CLEAN, script, pos).result.value.data;
      if lens == [45] {
        EncodedSize(items, seq(|lens|, _ => 1));
        OneAppSize(45);
        SecondGap(script, pos, stream, total, 118);
        assert false;
      }
      var i := Spoiled(lens);
      OnesSpoiled(lens, seq(|lens|, _ => 1));
      SecondGap(script, pos, stream, total, i);
      var skipped := ParsedFromEncoded(d, 1);
      OnesSpoiled(lens, skipped);
      assert false;
    }
  }

  /** Every list with names of these lengths is returned as it is. */
  ghost predicate AllReturned(lens: seq<nat>) {
    forall stream, version, items: seq<AppItem>, skipped: seq<byte> ::
      && |items| == |skipped| && AllValid(items) && NameLengths(items) == lens
      && Carries(stream, version, items, skipped)
      ==> Decoded(ScriptOf(stream), 0) == Ok(items)
  }

  /** get_app_list is right for all lists with names of these lengths exactly if there is no
      app, or one with a name of at most 44 bytes. */
  lemma AppListRange(lens: seq<nat>)
    requires Sendable(lens)
    ensures AllReturned(lens) <==> Fits(lens)
  {
    hide Receive, Delivers, EncodeAll, OnesItems, RecordsSize, ScriptOf, Decoded, OnesResponse;
    if Fits(lens) {
      forall stream, version, items: seq<AppItem>, skipped: seq<byte> |
        && |items| == |skipped| && AllValid(items) && NameLengths(items) == lens
        && Carries(stream, version, items, skipped)
        ensures Decoded(ScriptOf(stream), 0) == Ok(items)
      {
        ScriptDelivers(stream, |[version] + EncodeAll(items, skipped)| + 4);
        AppListEndToEnd(ScriptOf(stream), 0, stream, version, items, skipped);
      }
    } else {
      var items, skipped: seq<byte> := OnesItems(lens), seq(|lens|, _ => 1);
      var stream := OnesResponse(lens);
      ScriptDelivers(stream, |[1] + EncodeAll(items, skipped)| + 4);
      OnesNotReturned(ScriptOf(stream), 0, lens);
    }
  }

  /** For example, a list of two apps with names of seven letters. */
  lemma TwoAppsNotReturned()
    ensures Sendable([7, 7])
    ensures var stream := OnesResponse([7, 7]);
      Decoded(ScriptOf(stream), 0) != Ok(OnesItems([7, 7]))
  {
    hide Receive, Delivers, EncodeAll, OnesItems, ScriptOf, Decoded, OnesResponse;
    assert [7, 7][1..] == [7] && [7][1..] == [];
    assert RecordsSize([7, 7]) == 154;
    var stream := OnesResponse([7, 7]);
    ScriptDelivers(stream, |[1] + EncodeAll(OnesItems([7, 7]), seq(2, _ => 1))| + 4);
    OnesNotReturned(ScriptOf(stream), 0, [7, 7]);
  }
}
