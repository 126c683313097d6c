/** CAF variable-length quantities: big-endian base 128, high bit set on every byte but the last. */
module CafTable {
  import opened Bytes

  /** The continuation bytes that carry v. */
  function VlqHigh(v: nat): seq<byte> {
    if v == 0 then [] else VlqHigh(v / 128) + [v % 128 + 128]
  }

  function Vlq(value: int): (s: seq<byte>)
    ensures s != [] && s[|s| - 1] < 128
  {
    if value <= 0 then [0] else VlqHigh(value / 128) + [value % 128]
  }

  /** cafVLQ: fills a 10-byte buffer from its end. */
  method CafVlq(value: int64) returns (s: seq<byte>)
    ensures s == Vlq(value)
    ensures |s| <= 10
  {
    if value <= 0 {
      return [0];
    }
    var tmp := new byte[10](i => 0);
    var i := 9;
    tmp[i] := value % 128;
    assert tmp[i..] == [value % 128];
    HighFits(value / 128);
    var v := value / 128;
    while v > 0
      invariant 0 <= v && 0 <= i <= 9
      invariant VlqHigh(v) + tmp[i..] == Vlq(value)
      invariant |VlqHigh(v)| <= i
    {
      HighStep(v, tmp[i..]);
      i := PutHigh(tmp, i, v);
      v := v / 128;
    }
    s := tmp[i..];
  }

  /** Writes a continuation byte in front of what is already there. */
  method PutHigh(tmp: array<byte>, i: nat, v: nat) returns (j: nat)
    requires 0 < i <= tmp.Length
    modifies tmp
    ensures j == i - 1 && tmp[j..] == [v % 128 + 128] + old(tmp[i..])
  {
    j := i - 1;
    tmp[j] := v % 128 + 128;
  }

  /** The last high byte can be moved in front of what is already written. */
  lemma HighStep(v: nat, done: seq<byte>)
    requires v > 0
    ensures |VlqHigh(v)| == |VlqHigh(v / 128)| + 1
    ensures VlqHigh(v) + done == VlqHigh(v / 128) + ([v % 128 + 128] + done)
  {}

  lemma {:induction false} HighSize(v: nat, k: nat)
    requires v < Pow128(k)
    ensures |VlqHigh(v)| <= k
  {
    if v > 0 {
      HighSize(v / 128, k - 1);
    }
  }

  function Pow128(k: nat): nat {
    if k == 0 then 1 else 128 * Pow128(k - 1)
  }

  /** A positive 63-bit value needs at most eight continuation bytes. */
  lemma HighFits(v: nat)
    requires 128 * v < TWO63
    ensures |VlqHigh(v)| <= 8
  {
    assert Pow128(2) == 0x4000;
    assert Pow128(4) == 0x4000 * Pow128(2);
    assert Pow128(6) == 0x4000 * Pow128(4);
    assert Pow128(8) == 0x4000 * Pow128(6);
    HighSize(v, 8);
  }

  // ---- Decoding --------------------------------------------------------------

  datatype Read = Read(value: int, rest: seq<byte>)

  /** One quantity, accumulated in a wrapping 64-bit integer. */
  function ReadVlq(data: seq<byte>, acc: int): Read {
    if data == [] then Read(acc, [])
    else
      var acc' := Wrap64(acc * 128 + data[0] % 128);
      if data[0] < 128 then Read(acc', data[1..]) else ReadVlq(data[1..], acc')
  }

  function SkipVlq(data: seq<byte>): seq<byte> {
    if data == [] then [] else if data[0] < 128 then data[1..] else SkipVlq(data[1..])
  }

  /** The byte loop that reads one size. */
  method ReadSize(data: seq<byte>) returns (val: int, rest: seq<byte>)
    ensures Read(val, rest) == ReadVlq(data, 0)
  {
    val, rest := 0, data;
    while rest != []
      invariant ReadVlq(rest, val) == ReadVlq(data, 0)
      decreases |rest|
    {
      var b := rest[0];
      rest := rest[1..];
      val := Wrap64(val * 128 + b % 128);
      if b < 128 {
        return;
      }
    }
  }

  /** The byte loop that skips one frame count. */
  method SkipFrameCount(data: seq<byte>) returns (rest: seq<byte>)
    ensures rest == SkipVlq(data)
  {
    rest := data;
    while rest != []
      invariant SkipVlq(rest) == SkipVlq(data)
      decreases |rest|
    {
      var b := rest[0];
      rest := rest[1..];
      if b < 128 {
        return;
      }
    }
  }

  function DecodeSizes(data: seq<byte>, n: nat, hasFrameSize: bool): seq<int>
    decreases n
  {
    if n == 0 || data == [] then []
    else
      var r := ReadVlq(data, 0);
      [r.value] + DecodeSizes(if hasFrameSize then SkipVlq(r.rest) else r.rest, n - 1, hasFrameSize)
  }

  /** The sizes read so far, with those still to come, are all of them. */
  ghost predicate Decoding(data: seq<byte>, n: nat, hasFrameSize: bool, sizes: seq<int>, rest: seq<byte>, left: nat) {
    sizes + DecodeSizes(rest, left, hasFrameSize) == DecodeSizes(data, n, hasFrameSize)
  }

  /** One turn of the loop: a size, and past its frame count when it has one. */
  method DecodeOne(ghost data: seq<byte>, ghost n: nat, hasFrameSize: bool, sizes: seq<int>, rest: seq<byte>,
                   ghost left: nat) returns (sizes': seq<int>, rest': seq<byte>)
    requires left > 0 && rest != [] && Decoding(data, n, hasFrameSize, sizes, rest, left)
    ensures Decoding(data, n, hasFrameSize, sizes', rest', left - 1)
  {
    var val;
    val, rest' := ReadSize(rest);
    sizes' := sizes + [val];
    if hasFrameSize {
      rest' := SkipFrameCount(rest');
    }
    assert DecodeSizes(rest, left, hasFrameSize) == [val] + DecodeSizes(rest', left - 1, hasFrameSize);
  }

  /** decodeCAFPacketSizes. */
  method DecodeCafPacketSizes(data: seq<byte>, n: nat, hasFrameSize: bool) returns (sizes: seq<int>)
    ensures sizes == DecodeSizes(data, n, hasFrameSize)
  {
    sizes := [];
    var rest, i := data, 0;
    while i < n && rest != []
      invariant 0 <= i <= n
      invariant Decoding(data, n, hasFrameSize, sizes, rest, n - i)
      decreases n - i
    {
      sizes, rest := DecodeOne(data, n, hasFrameSize, sizes, rest, n - i);
      i := i + 1;
    }
  }

  /** Continuation bytes feed the accumulator exactly the number they carry. */
  lemma {:induction false} ReadHigh(v: nat, s: seq<byte>)
    requires v < TWO63
    ensures ReadVlq(VlqHigh(v) + s, 0) == ReadVlq(s, v)
    decreases v
  {
    if v == 0 {
      assert VlqHigh(v) + s == s;
    } else {
      var b := v % 128 + 128;
      assert VlqHigh(v) + s == VlqHigh(v / 128) + ([b] + s);
      ReadHigh(v / 128, [b] + s);
      assert ([b] + s)[1..] == s;
      assert (v / 128) * 128 + b % 128 == v;
    }
  }

  /** A quantity is self-delimiting: it reads back whatever follows it. */
  lemma VlqSelfDelimiting(value: int64, rest: seq<byte>)
    requires value >= 0
    ensures ReadVlq(Vlq(value) + rest, 0) == Read(value, rest)
  {
    var low: byte := value % 128;
    if value == 0 {
      assert Vlq(value) + rest == [low] + rest;
    } else {
      assert Vlq(value) + rest == VlqHigh(value / 128) + ([low] + rest);
      ReadHigh(value / 128, [low] + rest);
    }
    assert ([low] + rest)[1..] == rest;
  }

  function VlqTable(packets: seq<seq<byte>>): seq<byte> {
    if packets == [] then [] else Vlq(|packets[0]|) + VlqTable(packets[1..])
  }

  function Lengths(packets: seq<seq<byte>>): (l: seq<int>)
    ensures |l| == |packets| && forall i :: 0 <= i < |l| ==> l[i] == |packets[i]|
  {
    seq(|packets|, i requires 0 <= i < |packets| => |packets[i]|)
  }

  /** The packet table decodes to the packet lengths. */
  lemma {:induction false} TableRoundTrip(packets: seq<seq<byte>>)
    requires forall p :: p in packets ==> |p| < TWO63
    ensures DecodeSizes(VlqTable(packets), |packets|, false) == Lengths(packets)
  {
    if packets != [] {
      var p, rest := packets[0], packets[1..];
      assert p in packets;
      VlqSelfDelimiting(|p|, VlqTable(rest));
      TableRoundTrip(rest);
      assert Lengths(packets) == [|p|] + Lengths(rest);
    }
  }
}
