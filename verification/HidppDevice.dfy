/** The HID layer as hidpp_device sees it, and hidpp_device itself. */
module HidppDevice {
  import opened Bytes

  type Block = b: seq<byte> | |b| == 64 witness Zeros(64)
  type int32 = n: int | -0x8000_0000 <= n < 0x8000_0000

  /** One call of hid_read: its result, the 64-byte buffer it was given, and whether hid_error
      reports something afterwards. */
  datatype HidRead = HidRead(res: int32, block: Block, error: bool)

  /** A C int converted to a 64-bit size_t. */
  function SizeT(n: int32): nat {
    if n < 0 then n + 0x1_0000_0000_0000_0000 else n
  }

  /** What hidpp_device::read returns. */
  function ReadCount(r: HidRead): nat {
    if r.error then 0 else SizeT(r.res)
  }

  /** Which function of hidapi is asked to open a device.  The path is null for a device that
      was made from its ids. */
  datatype Request = HidOpen(vendorId: u16, productId: u16) | HidOpenPath

  function RequestFor(vendorId: u16, productId: u16): Request {
    if vendorId == 0 || productId == 0 then HidOpenPath else HidOpen(vendorId, productId)
  }

  /** An open HID handle.  What its reads return is up to the device, so it is an arbitrary
      script; what was handed to hid_write is recorded. */
  class HidHandle {
    const script: nat -> HidRead
    var pos: nat
    var written: seq<seq<byte>>

    constructor (script: nat -> HidRead)
      ensures this.script == script && pos == 0 && written == []
    {
      this.script := script;
      pos, written := 0, [];
    }

    method HidRead() returns (r: HidRead)
      modifies this`pos
      ensures r == script(old(pos))
      ensures pos == old(pos) + 1
    {
      r := script(pos);
      pos := pos + 1;
    }

    method HidWrite(data: seq<byte>)
      modifies this`written
      ensures written == old(written) + [data]
    {
      written := written + [data];
    }
  }

  /** The handles that were opened and not yet closed, how often each happened, and what was
      asked to be opened. */
  class Hidapi {
    ghost var live: set<HidHandle>
    var requests: seq<Request>
    var opens: nat
    var closes: nat

    constructor ()
      ensures live == {} && requests == [] && opens == closes == 0
    {
      live, requests := {}, [];
      opens, closes := 0, 0;
    }

    /** Whether opening works is the system's decision: `result` is what it yields. */
    method HidOpen(request: Request, result: HidHandle?) returns (h: HidHandle?)
      requires result !in live
      modifies this
      ensures h == result
      ensures requests == old(requests) + [request]
      ensures closes == old(closes)
      ensures if h == null then live == old(live) && opens == old(opens)
              else live == old(live) + {h} && opens == old(opens) + 1
    {
      h := result;
      requests := requests + [request];
      if h != null {
        live, opens := live + {h}, opens + 1;
      }
    }

    /** Only a live handle may be closed. */
    method HidClose(h: HidHandle)
      requires h in live
      modifies this
      ensures live == old(live) - {h} && requests == old(requests)
      ensures opens == old(opens) && closes == old(closes) + 1
    {
      live, closes := live - {h}, closes + 1;
    }
  }

  class HidppDevice {
    var dev: HidHandle?
    var vendorId: u16
    var productId: u16

    constructor (vendorId: u16, productId: u16)
      ensures dev == null && this.vendorId == vendorId && this.productId == productId
    {
      dev := null;
      this.vendorId, this.productId := vendorId, productId;
    }

    /** Copy assignment: the handle is copied, whatever this object held before is forgotten. */
    method Assign(other: HidppDevice)
      modifies this
      ensures dev == old(other.dev)
      ensures vendorId == old(other.vendorId) && productId == old(other.productId)
    {
      dev, vendorId, productId := other.dev, other.vendorId, other.productId;
    }

    predicate IsOpen()
      reads this
    {
      dev != null
    }

    method Open(api: Hidapi, result: HidHandle?) returns (ok: bool)
      requires result !in api.live
      modifies this`dev, api
      ensures dev == result && ok == (result != null)
      ensures api.requests == old(api.requests)
        + [if vendorId == 0 || productId == 0 then HidOpenPath else Request.HidOpen(vendorId, productId)]
      ensures api.closes == old(api.closes)
      ensures if ok then api.live == old(api.live) + {dev} && api.opens == old(api.opens) + 1
              else api.live == old(api.live) && api.opens == old(api.opens)
    {
      if vendorId == 0 || productId == 0 {
        dev := api.HidOpen(Request.HidOpenPath, result);
      } else {
        dev := api.HidOpen(Request.HidOpen(vendorId, productId), result);
      }
      ok := dev != null;
    }

    method Close(api: Hidapi)
      requires dev != null ==> dev in api.live
      modifies this`dev, api
      ensures dev == null
      ensures api.live == old(api.live) - {old(dev)} && api.requests == old(api.requests)
      ensures api.opens == old(api.opens)
      ensures api.closes == old(api.closes) + if old(dev) == null then 0 else 1
    {
      if dev != null {
        api.HidClose(dev);
        dev := null;
      }
    }

    method Write(data: seq<byte>)
      requires dev != null
      modifies dev`written
      ensures dev.written == old(dev.written) + [data]
    {
      dev.HidWrite(data);
    }

    /** The block overwrites the front of `out` whatever hid_read returned, unless hid_error
        reports something: then nothing is written, and nothing counts as read. */
    method Read(out: BytesData) returns (n: nat)
      requires dev != null
      modifies dev`pos, out
      ensures dev.pos == old(dev.pos) + 1
      ensures var r := dev.script(old(dev.pos));
        && n == ReadCount(r)
        && out.data == if r.error then old(out.data) else Overwrite(old(out.data), 0, r.block)
    {
      var r := dev.HidRead();
      if r.error {
        return 0;
      }
      var _ := out.Write(0, r.block);
      n := SizeT(r.res);
    }
  }
}
