/** Machine integers as they occur on the wire, and the byte buffers of the toolbox library
    as far as this repository uses them: a write overwrites and grows the buffer with zeros
    when it has to, numbers are big-endian, and ranges are half-open. */
module Bytes {

  type byte = b: int | 0 <= b < 0x100
  type u16 = n: int | 0 <= n < 0x1_0000
  type u32 = n: int | 0 <= n < 0x1_0000_0000

  datatype Option<+T> = None | Some(value: T)

  function Min(a: nat, b: nat): nat {
    if a < b then a else b
  }

  function Max(a: nat, b: nat): nat {
    if a < b then b else a
  }

  /** The number of pieces of at most `size` bytes that `n` bytes are cut into. */
  function Ceil(n: nat, size: nat): nat
    requires size > 0
  {
    (n + size - 1) / size
  }

  function Zeros(n: nat): (z: seq<byte>)
    ensures |z| == n
  {
    seq(n, _ => 0)
  }

  function U16Bytes(n: u16): (s: seq<byte>)
    ensures |s| == 2 && U16At(s, 0) == n
  {
    [n / 0x100, n % 0x100]
  }

  function U16At(s: seq<byte>, pos: nat): u16
    requires pos + 2 <= |s|
  {
    var high: int, low: int := s[pos], s[pos + 1];
    high * 0x100 + low
  }

  function U32Bytes(n: u32): (s: seq<byte>)
    ensures |s| == 4
  {
    [n / 0x100_0000, n / 0x1_0000 % 0x100, n / 0x100 % 0x100, n % 0x100]
  }

  function U32At(s: seq<byte>, pos: nat): u32
    requires pos + 4 <= |s|
  {
    var a: int, b: int, c: int, d: int := s[pos], s[pos + 1], s[pos + 2], s[pos + 3];
    a * 0x100_0000 + b * 0x1_0000 + c * 0x100 + d
  }

  lemma U32BytesAt(n: u32)
    ensures U32At(U32Bytes(n), 0) == n
  {
    var a, b, c := n / 0x100_0000, n / 0x1_0000, n / 0x100;
    assert b == a * 0x100 + b % 0x100;
    assert c == b * 0x100 + c % 0x100;
  }

  lemma U32AtBytes(s: seq<byte>, pos: nat)
    requires pos + 4 <= |s|
    ensures U32Bytes(U32At(s, pos)) == s[pos..pos + 4]
  {
    var n := U32At(s, pos);
    var a: int, b: int, c: int := s[pos], s[pos + 1], s[pos + 2];
    assert n / 0x100_0000 == a;
    assert n / 0x1_0000 == a * 0x100 + b;
    assert n / 0x100 == a * 0x1_0000 + b * 0x100 + c;
  }

  /** What a buffer holds after `src` is written at `pos`. */
  function Overwrite(buf: seq<byte>, pos: nat, src: seq<byte>): (r: seq<byte>)
    ensures |r| == Max(|buf|, pos + |src|)
    ensures forall i :: 0 <= i < |r| ==>
      r[i] == if pos <= i < pos + |src| then src[i - pos] else if i < |buf| then buf[i] else 0
  {
    var end := pos + |src|;
    var grown := if |buf| < end then buf + Zeros(end - |buf|) else buf;
    grown[..pos] + src + grown[end..]
  }

  lemma SliceOfRest<T>(s: seq<T>, n: nat, from: nat, to: nat)
    requires n <= |s| && from <= to <= |s| - n
    ensures s[n..][from..to] == s[n + from..n + to]
  {
  }

  lemma SliceInside<T>(before: seq<T>, s: seq<T>, after: seq<T>, from: nat, to: nat)
    requires from <= to <= |s|
    ensures (before + s + after)[|before| + from..|before| + to] == s[from..to]
  {
  }

  lemma SliceOfSlice<T>(s: seq<T>, start: nat, end: nat, from: nat, to: nat)
    requires start <= end <= |s| && from <= to <= end - start
    ensures s[start..end][from..to] == s[start + from..start + to]
  {
    var t := s[start..end];
    forall i | from <= i < to ensures t[i] == s[start + i] {
    }
  }

  lemma OverwriteAll(buf: seq<byte>, src: seq<byte>)
    requires |buf| == |src|
    ensures Overwrite(buf, 0, src) == src
  {
  }

  /** Filling a zeroed buffer from the front. */
  lemma FillNext(done: seq<byte>, room: nat, src: seq<byte>)
    requires |src| <= room
    ensures Overwrite(done + Zeros(room), |done|, src) == done + src + Zeros(room - |src|)
  {
  }

  /** A toolbox byte buffer. */
  class BytesData {
    var data: seq<byte>

    constructor (size: nat)
      ensures data == Zeros(size)
    {
      data := Zeros(size);
    }

    method Write(pos: nat, src: seq<byte>) returns (n: nat)
      modifies this
      ensures data == Overwrite(old(data), pos, src)
      ensures n == |src|
    {
      data := Overwrite(data, pos, src);
      n := |src|;
    }

    /** Moves bytes off the front of this buffer into the part of `chunk` that starts at `pos`,
        as many as both have. */
    method PopFrontTo(pos: nat, chunk: BytesData) returns (n: nat)
      requires chunk != this && pos <= |chunk.data|
      modifies this, chunk
      ensures n == Min(|old(data)|, |old(chunk.data)| - pos)
      ensures data == old(data)[n..]
      ensures chunk.data == Overwrite(old(chunk.data), pos, old(data)[..n])
    {
      n := Min(|data|, |chunk.data| - pos);
      chunk.data := Overwrite(chunk.data, pos, data[..n]);
      data := data[n..];
    }
  }
}
