/**
  Ogg pages (section 6 of RFC 3533): the page encoding, the packet reader, and the
  fact that reading depends only on the stream of lacing values and bytes, never on
  how they are cut into pages.
 */
module OggPages {
  import opened Bytes
  import opened Collections

  datatype Result<T> = Ok(value: T) | Err

  datatype Page = Page(
    version: byte, flags: byte, granule: int64, serial: nat, seqNo: nat, crc: nat,
    lacing: seq<byte>, payload: seq<byte>)

  function CapturePattern(): seq<byte> { [0x4F, 0x67, 0x67, 0x53] }

  function Sum(lacing: seq<byte>): nat {
    if lacing == [] then 0 else lacing[0] + Sum(lacing[1..])
  }

  ghost predicate ValidPage(p: Page) {
    && |p.lacing| <= 255
    && Sum(p.lacing) == |p.payload|
  }

  /**
    Page bytes before the segment table. The sequence number keeps its low 32 bits and
    the segment count its low 8, as Go's uint32 and byte conversions do.
   */
  function FixedHeader(p: Page): (h: seq<byte>)
    ensures |h| == 27
  {
    (CapturePattern() + [p.version, p.flags]) + LittleEndian(Unsigned64(p.granule), 8)
    + (LittleEndian(p.serial, 4) + LittleEndian(p.seqNo, 4) + LittleEndian(p.crc, 4) + [|p.lacing| % 256])
  }

  function EncodePage(p: Page): seq<byte> {
    FixedHeader(p) + p.lacing + p.payload
  }

  function EncodeStream(pages: seq<Page>): seq<byte> {
    if pages == [] then [] else EncodePage(pages[0]) + EncodeStream(pages[1..])
  }

  function StreamLacing(pages: seq<Page>): seq<byte> {
    if pages == [] then [] else pages[0].lacing + StreamLacing(pages[1..])
  }

  function StreamPayload(pages: seq<Page>): seq<byte> {
    if pages == [] then [] else pages[0].payload + StreamPayload(pages[1..])
  }

  /** The granule a reader ends with: the last positive one. */
  function LastGranule(pages: seq<Page>, start: int64): int64 {
    if pages == [] then start
    else LastGranule(pages[1..], if pages[0].granule > 0 then pages[0].granule else start)
  }

  // ---- Packet assembly ------------------------------------------------------

  datatype Assembly = Assembly(packets: seq<seq<byte>>, current: seq<byte>)

  function AddSegment(a: Assembly, segment: seq<byte>): Assembly {
    if |segment| < 255 then Assembly(a.packets + [a.current + segment], [])
    else Assembly(a.packets, a.current + segment)
  }

  function AddSegments(a: Assembly, lacing: seq<byte>, body: seq<byte>): Assembly
    requires |body| == Sum(lacing)
    decreases |lacing|
  {
    if lacing == [] then a
    else AddSegments(AddSegment(a, body[..lacing[0]]), lacing[1..], body[lacing[0]..])
  }

  /** Packets of a whole stream; an unterminated last packet counts when it has bytes. */
  function Finish(a: Assembly): seq<seq<byte>> {
    if a.current != [] then a.packets + [a.current] else a.packets
  }

  // ---- The reader -----------------------------------------------------------

  datatype Reading = Reading(assembly: Assembly, lastGranule: int64)

  function PageGranule(data: seq<byte>): int64
    requires |data| >= 26
  {
    WordSizes();
    Signed64(FromLittleEndian(data[6..14]))
  }

  /** Everything readOGGPackets does from a page boundary on. */
  function ReadPages(data: seq<byte>, r: Reading): Result<Reading>
    decreases |data|
  {
    if |data| < 4 then Ok(r)
    else if data[..4] != CapturePattern() then Err
    else if |data| < 27 then Err
    else
      var n: nat := data[26];
      if |data| < 27 + n then Err
      else
        var lacing, body := data[27..27 + n], data[27 + n..];
        if |body| < Sum(lacing) then Err
        else
          var g := PageGranule(data);
          ReadPages(body[Sum(lacing)..],
                    Reading(AddSegments(r.assembly, lacing, body[..Sum(lacing)]),
                            if g > 0 then g else r.lastGranule))
  }

  function Start(): Reading { Reading(Assembly([], []), 0) }

  datatype Stream = Stream(packets: seq<seq<byte>>, granule: int64)

  function ReadStream(data: seq<byte>): Result<Stream> {
    match ReadPages(data, Start())
    case Ok(r) => Ok(Stream(Finish(r.assembly), r.lastGranule))
    case Err => Err
  }

  // ---- Lemmas -----------------------------------------------------------------

  lemma {:induction false} SumAppend(a: seq<byte>, b: seq<byte>)
    ensures Sum(a + b) == Sum(a) + Sum(b)
  {
    if a == [] {
      assert a + b == b;
    } else {
      assert (a + b)[1..] == a[1..] + b;
      SumAppend(a[1..], b);
    }
  }

  lemma {:induction false} AddSegmentsAppend(
    a: Assembly, l1: seq<byte>, b1: seq<byte>, l2: seq<byte>, b2: seq<byte>)
    requires |b1| == Sum(l1) && |b2| == Sum(l2)
    ensures Sum(l1 + l2) == |b1 + b2|
    ensures AddSegments(a, l1 + l2, b1 + b2) == AddSegments(AddSegments(a, l1, b1), l2, b2)
    decreases |l1|
  {
    SumAppend(l1, l2);
    if l1 == [] {
      assert l1 + l2 == l2 && b1 + b2 == b2;
    } else {
      var n := l1[0];
      assert (l1 + l2)[1..] == l1[1..] + l2;
      assert (b1 + b2)[..n] == b1[..n] && (b1 + b2)[n..] == b1[n..] + b2;
      AddSegmentsAppend(AddSegment(a, b1[..n]), l1[1..], b1[n..], l2, b2);
    }
  }

  lemma HeaderShape(front: seq<byte>, middle: seq<byte>, back: seq<byte>, lacing: seq<byte>,
                    payload: seq<byte>, rest: seq<byte>)
    requires |front| == 6 && |middle| == 8 && |back| == 13
    ensures var data := front + middle + back + lacing + payload + rest;
      && data[..6] == front && data[6..14] == middle && data[14..27] == back
      && data[27..] == lacing + (payload + rest)
  {}

  lemma HeaderFields(p: Page, rest: seq<byte>)
    requires ValidPage(p)
    ensures var data := EncodePage(p) + rest;
      && |data| >= 27 && data[..4] == CapturePattern() && data[26] == |p.lacing|
      && data[27..] == p.lacing + (p.payload + rest)
      && PageGranule(data) == p.granule
  {
    var data := EncodePage(p) + rest;
    var front, middle := CapturePattern() + [p.version, p.flags], LittleEndian(Unsigned64(p.granule), 8);
    var back := LittleEndian(p.serial, 4) + LittleEndian(p.seqNo, 4) + LittleEndian(p.crc, 4) + [|p.lacing| % 256];
    HeaderShape(front, middle, back, p.lacing, p.payload, rest);
    assert data[..4] == data[..6][..4];
    assert data[26] == data[14..27][12];
    WordSizes();
    LittleEndianRoundTrip(Unsigned64(p.granule), 8);
  }

  /** Every header field is at the offset that section 6 of RFC 3533 gives it. */
  lemma HeaderLayout(p: Page)
    requires p.serial < TWO32 && p.seqNo < TWO32 && p.crc < TWO32 && |p.lacing| < 256
    ensures var e := EncodePage(p);
      && e[..4] == Ascii("OggS") && e[4] == p.version && e[5] == p.flags
      && PageGranule(e) == p.granule && FromLittleEndian(e[14..18]) == p.serial
      && FromLittleEndian(e[18..22]) == p.seqNo && FromLittleEndian(e[22..26]) == p.crc
      && e[26] == |p.lacing| && e[27..] == p.lacing + p.payload
  {
    HeaderSlices(p);
    HeaderNumbers(p.granule, p.serial, p.seqNo, p.crc);
  }

  lemma HeaderNumbers(granule: int64, serial: nat, seqNo: nat, crc: nat)
    requires serial < TWO32 && seqNo < TWO32 && crc < TWO32
    ensures Signed64(FromLittleEndian(LittleEndian(Unsigned64(granule), 8))) == granule
    ensures FromLittleEndian(LittleEndian(serial, 4)) == serial
    ensures FromLittleEndian(LittleEndian(seqNo, 4)) == seqNo
    ensures FromLittleEndian(LittleEndian(crc, 4)) == crc
  {
    WordSizes();
    LittleEndianRoundTrip(Unsigned64(granule), 8);
    LittleEndianRoundTrip(serial, 4);
    LittleEndianRoundTrip(seqNo, 4);
    LittleEndianRoundTrip(crc, 4);
  }

  lemma HeaderSlices(p: Page)
    requires |p.lacing| < 256
    ensures var e := EncodePage(p);
      && e[..4] == Ascii("OggS") && e[4] == p.version && e[5] == p.flags
      && e[6..14] == LittleEndian(Unsigned64(p.granule), 8) && e[14..18] == LittleEndian(p.serial, 4)
      && e[18..22] == LittleEndian(p.seqNo, 4) && e[22..26] == LittleEndian(p.crc, 4)
      && e[26] == |p.lacing| && e[27..] == p.lacing + p.payload
  {
    var front := CapturePattern() + [p.version, p.flags];
    HeaderOffsets(front, LittleEndian(Unsigned64(p.granule), 8), LittleEndian(p.serial, 4), LittleEndian(p.seqNo, 4),
                  LittleEndian(p.crc, 4), |p.lacing|, p.lacing + p.payload);
    assert EncodePage(p) == FixedHeader(p) + (p.lacing + p.payload);
    assert front[..4] == CapturePattern() == Ascii("OggS");
  }

  lemma HeaderOffsets(a: seq<byte>, b: seq<byte>, c: seq<byte>, d: seq<byte>, e: seq<byte>, n: byte, rest: seq<byte>)
    requires |a| == 6 && |b| == 8 && |c| == |d| == |e| == 4
    ensures var h := a + b + (c + d + e + [n]) + rest;
      && h[..4] == a[..4] && h[4] == a[4] && h[5] == a[5] && h[6..14] == b
      && h[14..18] == c && h[18..22] == d && h[22..26] == e && h[26] == n && h[27..] == rest
  {}

  /** Reading a well-formed page consumes exactly its bytes. */
  lemma ReadOnePage(p: Page, rest: seq<byte>, r: Reading)
    requires ValidPage(p)
    ensures ReadPages(EncodePage(p) + rest, r)
         == ReadPages(rest, Reading(AddSegments(r.assembly, p.lacing, p.payload),
                                    if p.granule > 0 then p.granule else r.lastGranule))
  {
    HeaderFields(p, rest);
    var data := EncodePage(p) + rest;
    var n := |p.lacing|;
    assert data[27..27 + n] == data[27..][..n] == p.lacing;
    assert data[27 + n..] == data[27..][n..] == p.payload + rest;
    assert (p.payload + rest)[..|p.payload|] == p.payload;
    assert (p.payload + rest)[|p.payload|..] == rest;
  }

  lemma {:induction false} StreamSums(pages: seq<Page>)
    requires forall p :: p in pages ==> ValidPage(p)
    ensures Sum(StreamLacing(pages)) == |StreamPayload(pages)|
  {
    if pages != [] {
      assert pages[0] in pages;
      StreamSums(pages[1..]);
      SumAppend(pages[0].lacing, StreamLacing(pages[1..]));
    }
  }

  lemma {:induction false} ReadEncodedPages(pages: seq<Page>, r: Reading)
    requires forall p :: p in pages ==> ValidPage(p)
    ensures Sum(StreamLacing(pages)) == |StreamPayload(pages)|
    ensures ReadPages(EncodeStream(pages), r)
         == Ok(Reading(AddSegments(r.assembly, StreamLacing(pages), StreamPayload(pages)),
                       LastGranule(pages, r.lastGranule)))
    decreases |pages|
  {
    StreamSums(pages);
    if pages != [] {
      var p, rest := pages[0], pages[1..];
      StreamSums(rest);
      ReadOnePage(p, EncodeStream(rest), r);
      ReadEncodedPages(rest, Reading(AddSegments(r.assembly, p.lacing, p.payload),
                                     if p.granule > 0 then p.granule else r.lastGranule));
      AddSegmentsAppend(r.assembly, p.lacing, p.payload, StreamLacing(rest), StreamPayload(rest));
    }
  }

  /**
    Redistribution: two page sequences that carry the same lacing values and the same
    bytes, cut into pages in any way, read back as the same packets.
   */
  lemma PacketsIgnorePageBreaks(pages: seq<Page>, other: seq<Page>)
    requires forall p :: p in pages ==> ValidPage(p)
    requires forall p :: p in other ==> ValidPage(p)
    requires StreamLacing(pages) == StreamLacing(other)
    requires StreamPayload(pages) == StreamPayload(other)
    ensures ReadStream(EncodeStream(pages)).Ok? && ReadStream(EncodeStream(other)).Ok?
    ensures ReadStream(EncodeStream(pages)).value.packets == ReadStream(EncodeStream(other)).value.packets
  {
    ReadEncodedPages(pages, Start());
    ReadEncodedPages(other, Start());
  }

  // ---- Lacing of whole packets ------------------------------------------------

  /** Lacing values of a packet of n bytes: full segments, then one short one. */
  function PacketLacing(n: nat): (l: seq<byte>)
    ensures |l| == n / 255 + 1 && Sum(l) == n
  {
    if n < 255 then [n] else [255] + PacketLacing(n - 255)
  }

  function Lacing(packets: seq<seq<byte>>): seq<byte> {
    if packets == [] then [] else PacketLacing(|packets[0]|) + Lacing(packets[1..])
  }

  lemma {:induction false} AssemblePacket(a: Assembly, pkt: seq<byte>)
    ensures AddSegments(a, PacketLacing(|pkt|), pkt) == Assembly(a.packets + [a.current + pkt], [])
    decreases |pkt|
  {
    if |pkt| < 255 {
      assert pkt[..|pkt|] == pkt;
      assert PacketLacing(|pkt|)[1..] == [] && pkt[|pkt|..] == [];
    } else {
      var l := PacketLacing(|pkt|);
      assert l[1..] == PacketLacing(|pkt| - 255);
      AssemblePacket(AddSegment(a, pkt[..255]), pkt[255..]);
      assert (a.current + pkt[..255]) + pkt[255..] == a.current + pkt;
    }
  }

  lemma {:induction false} LacingSum(packets: seq<seq<byte>>)
    ensures Sum(Lacing(packets)) == |Flatten(packets)|
  {
    if packets != [] {
      SumAppend(PacketLacing(|packets[0]|), Lacing(packets[1..]));
      LacingSum(packets[1..]);
    }
  }

  /** Laced packets come back as themselves, lengths 0 and multiples of 255 included. */
  lemma {:induction false} AssemblePackets(a: Assembly, packets: seq<seq<byte>>)
    requires a.current == []
    ensures Sum(Lacing(packets)) == |Flatten(packets)|
    ensures AddSegments(a, Lacing(packets), Flatten(packets)) == Assembly(a.packets + packets, [])
    decreases |packets|
  {
    LacingSum(packets);
    if packets == [] {
      assert a.packets + packets == a.packets;
    } else {
      var p, rest := packets[0], packets[1..];
      LacingSum(rest);
      var next := Assembly(a.packets + [p], []);
      calc {
        AddSegments(a, Lacing(packets), Flatten(packets));
      ==  { AddSegmentsAppend(a, PacketLacing(|p|), p, Lacing(rest), Flatten(rest)); }
        AddSegments(AddSegments(a, PacketLacing(|p|), p), Lacing(rest), Flatten(rest));
      ==  { AssemblePacket(a, p); assert [] + p == p; }
        AddSegments(next, Lacing(rest), Flatten(rest));
      ==  { AssemblePackets(next, rest); }
        Assembly(next.packets + rest, []);
      ==  { assert next.packets + rest == a.packets + packets; }
        Assembly(a.packets + packets, []);
      }
    }
  }

  /** Pages that carry the lacing and bytes of some packets read back as those packets. */
  lemma ReadLacedPages(pages: seq<Page>, packets: seq<seq<byte>>)
    requires forall p :: p in pages ==> ValidPage(p)
    requires StreamLacing(pages) == Lacing(packets) && StreamPayload(pages) == Flatten(packets)
    ensures ReadStream(EncodeStream(pages)) == Ok(Stream(packets, LastGranule(pages, 0)))
  {
    ReadEncodedPages(pages, Start());
    AssemblePackets(Assembly([], []), packets);
    assert [] + packets == packets;
  }

  // ---- Streams that end badly -----------------------------------------------------

  /** A page cut short, or something that is no page. */
  ghost predicate Broken(tail: seq<byte>) {
    |tail| >= 4 && (tail[..4] != Ascii("OggS") || exists p :: ValidPage(p) && tail < EncodePage(p))
  }

  lemma CutPageFails(p: Page, tail: seq<byte>, r: Reading)
    requires ValidPage(p) && 4 <= |tail| && tail < EncodePage(p)
    ensures ReadPages(tail, r).Err?
  {
    var page, n := EncodePage(p), |p.lacing|;
    HeaderFields(p, []);
    assert page + [] == page && p.lacing + (p.payload + []) == p.lacing + p.payload;
    if |tail| >= 27 + n {
      assert tail[26] == page[26];
      assert tail[27..27 + n] == page[27..][..n] == p.lacing;
    }
  }

  lemma {:induction false} ReadThenTail(pages: seq<Page>, tail: seq<byte>, r: Reading)
    requires forall p :: p in pages ==> ValidPage(p)
    ensures |tail| < 4 ==> ReadPages(EncodeStream(pages) + tail, r) == ReadPages(EncodeStream(pages), r)
    ensures Broken(tail) ==> ReadPages(EncodeStream(pages) + tail, r).Err?
    decreases pages
  {
    if pages == [] {
      assert EncodeStream(pages) + tail == tail;
      assert CapturePattern() == Ascii("OggS");
      if p :| ValidPage(p) && 4 <= |tail| && tail < EncodePage(p) {
        CutPageFails(p, tail, r);
      }
    } else {
      var p, rest := pages[0], pages[1..];
      assert p in pages;
      assert EncodeStream(pages) + tail == EncodePage(p) + (EncodeStream(rest) + tail);
      ReadOnePage(p, EncodeStream(rest) + tail, r);
      ReadOnePage(p, EncodeStream(rest), r);
      ReadThenTail(rest, tail, Reading(AddSegments(r.assembly, p.lacing, p.payload),
                                       if p.granule > 0 then p.granule else r.lastGranule));
    }
  }

  /** Up to three stray bytes are ignored; a cut page or anything else after the pages is an error. */
  lemma TailDecides(pages: seq<Page>, tail: seq<byte>)
    requires forall p :: p in pages ==> ValidPage(p)
    ensures |tail| < 4 ==> ReadStream(EncodeStream(pages) + tail) == ReadStream(EncodeStream(pages))
    ensures Broken(tail) ==> ReadStream(EncodeStream(pages) + tail).Err?
  {
    ReadThenTail(pages, tail, Start());
  }

  /** Segments of 255 bytes at the end of a stream, with no shorter one after them. */
  function Unfinished(n: nat): (l: seq<byte>)
    ensures |l| == n && forall i :: 0 <= i < n ==> l[i] == 255
  {
    seq(n, i => 255)
  }

  lemma {:induction false} UnfinishedSum(n: nat)
    ensures Sum(Unfinished(n)) == 255 * n
  {
    if n > 0 {
      assert Unfinished(n)[1..] == Unfinished(n - 1);
      UnfinishedSum(n - 1);
    }
  }

  lemma {:induction false} AssembleUnfinished(a: Assembly, fragment: seq<byte>, n: nat)
    requires |fragment| == 255 * n
    ensures Sum(Unfinished(n)) == |fragment|
    ensures AddSegments(a, Unfinished(n), fragment) == Assembly(a.packets, a.current + fragment)
    decreases n
  {
    UnfinishedSum(n);
    if n == 0 {
      assert a.current + fragment == a.current;
    } else {
      assert Unfinished(n)[1..] == Unfinished(n - 1);
      AssembleUnfinished(AddSegment(a, fragment[..255]), fragment[255..], n - 1);
      assert (a.current + fragment[..255]) + fragment[255..] == a.current + fragment;
    }
  }

  /** A stream that ends inside a packet keeps what it has of that packet. */
  lemma UnfinishedPacketIsKept(pages: seq<Page>, packets: seq<seq<byte>>, fragment: seq<byte>, n: nat)
    requires forall p :: p in pages ==> ValidPage(p)
    requires n > 0 && |fragment| == 255 * n
    requires StreamLacing(pages) == Lacing(packets) + Unfinished(n)
    requires StreamPayload(pages) == Flatten(packets) + fragment
    ensures ReadStream(EncodeStream(pages)) == Ok(Stream(packets + [fragment], LastGranule(pages, 0)))
  {
    var start := Assembly([], []);
    ReadEncodedPages(pages, Start());
    LacingSum(packets);
    UnfinishedSum(n);
    AddSegmentsAppend(start, Lacing(packets), Flatten(packets), Unfinished(n), fragment);
    AssemblePackets(start, packets);
    AssembleUnfinished(Assembly(packets, []), fragment, n);
    assert [] + packets == packets && [] + fragment == fragment;
  }

  lemma {:induction false} LacingAppend(a: seq<seq<byte>>, b: seq<seq<byte>>)
    ensures Lacing(a + b) == Lacing(a) + Lacing(b)
  {
    if a == [] {
      assert a + b == b;
    } else {
      assert (a + b)[1..] == a[1..] + b;
      LacingAppend(a[1..], b);
    }
  }

  // ---- The reading loops ------------------------------------------------------

  lemma OneMoreSegment(a: Assembly, lacing: seq<byte>, body: seq<byte>, k: nat, off: nat)
    requires k < |lacing| && off == Sum(lacing[..k]) && off + lacing[k] <= |body|
    ensures Sum(lacing[..k + 1]) == off + lacing[k]
    ensures AddSegments(a, lacing[..k + 1], body[..off + lacing[k]])
         == AddSegment(AddSegments(a, lacing[..k], body[..off]), body[off..off + lacing[k]])
  {
    var seg := body[off..off + lacing[k]];
    assert lacing[..k + 1] == lacing[..k] + [lacing[k]];
    assert body[..off + lacing[k]] == body[..off] + seg;
    SingleSegment(AddSegments(a, lacing[..k], body[..off]), seg);
    AddSegmentsAppend(a, lacing[..k], body[..off], [lacing[k]], seg);
  }

  lemma SingleSegment(a: Assembly, seg: seq<byte>)
    requires |seg| < 256
    ensures Sum([|seg|]) == |seg| && AddSegments(a, [|seg|], seg) == AddSegment(a, seg)
  {
    assert [|seg|][1..] == [] && seg[..|seg|] == seg && seg[|seg|..] == [];
  }

  lemma SumPrefix(lacing: seq<byte>, k: nat)
    requires k <= |lacing|
    ensures Sum(lacing[..k]) <= Sum(lacing)
  {
    SumAppend(lacing[..k], lacing[k..]);
    assert lacing[..k] + lacing[k..] == lacing;
  }

  /** The segment loop of readOGGPackets, from the first payload byte of a page. */
  method ReadSegments(body: seq<byte>, lacing: seq<byte>, start: Assembly)
    returns (ok: bool, a: Assembly, used: nat)
    ensures ok == (Sum(lacing) <= |body|)
    ensures ok ==> used == Sum(lacing) && a == AddSegments(start, lacing, body[..used])
  {
    var packets, current := start.packets, start.current;
    used := 0;
    for k := 0 to |lacing|
      invariant used == Sum(lacing[..k]) <= |body|
      invariant Assembly(packets, current) == AddSegments(start, lacing[..k], body[..used])
    {
      var segSize: nat := lacing[k];
      SumPrefix(lacing, k + 1);
      assert lacing[..k + 1] == lacing[..k] + [lacing[k]];
      SumAppend(lacing[..k], [lacing[k]]);
      if used + segSize > |body| {
        return false, start, used;
      }
      OneMoreSegment(start, lacing, body, k, used);
      current := current + body[used..used + segSize];
      if segSize < 255 {
        packets := packets + [current];
        current := [];
      }
      used := used + segSize;
    }
    assert lacing[..|lacing|] == lacing;
    ok, a := true, Assembly(packets, current);
  }

  /** One page: header checks, segment table, segments. */
  method ReadPage(data: seq<byte>, r: Reading) returns (ok: bool, r': Reading, used: nat)
    requires |data| >= 4
    ensures !ok ==> ReadPages(data, r) == Err
    ensures ok ==> 27 <= used <= |data| && ReadPages(data, r) == ReadPages(data[used..], r')
  {
    if data[..4] != CapturePattern() || |data| < 27 {
      return false, r, 0;
    }
    var n: nat := data[26];
    if |data| < 27 + n {
      return false, r, 0;
    }
    var granule := PageGranule(data);
    var a, size;
    ok, a, size := ReadSegments(data[27 + n..], data[27..27 + n], r.assembly);
    r' := Reading(a, if granule > 0 then granule else r.lastGranule);
    used := 27 + n + size;
    if ok {
      assert data[27 + n..][size..] == data[used..];
    }
  }

  /** The page loop of readOGGPackets. */
  method ReadAllPages(data: seq<byte>) returns (r: Result<Reading>)
    ensures r == ReadPages(data, Start())
  {
    var rest, state := data, Start();
    while |rest| >= 4
      invariant ReadPages(rest, state) == ReadPages(data, Start())
      decreases |rest|
    {
      var ok, next, used := ReadPage(rest, state);
      if !ok {
        return Err;
      }
      rest, state := rest[used..], next;
    }
    r := Ok(state);
  }

  method ReadOggPackets(data: seq<byte>) returns (r: Result<Stream>)
    ensures r == ReadStream(data)
  {
    var pages := ReadAllPages(data);
    match pages
    case Ok(state) => r := Ok(Stream(Finish(state.assembly), state.lastGranule));
    case Err => r := Err;
  }
}
