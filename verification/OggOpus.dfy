/**
  The Ogg Opus writer and parser: the greedy page packer, the page stream it
  produces, and the round trip through the reader.
 */
module OggOpus {
  import opened Bytes
  import opened Collections
  import opened OggPages
  import opened OpusToc
  import opened Greedy
  import OggCrc

  datatype OpusInfo = OpusInfo(
    channels: int64, preSkip: int64, opusHead: seq<byte>, packets: seq<seq<byte>>, granulePos: int64)

  /** Go's bytes.Buffer, as far as the writers use it. */
  class Buffer {
    var data: seq<byte>

    constructor ()
      ensures data == []
    {
      data := [];
    }

    method Write(bytes: seq<byte>)
      modifies this
      ensures data == old(data) + bytes
    {
      data := data + bytes;
    }
  }

  const SERIAL := 0x4F707573
  const MAX_PAYLOAD := 48000
  const MAX_SEGMENTS := 255

  // ---- One page ---------------------------------------------------------------

  function BarePage(serial: nat, seqNo: nat, granule: int64, flags: byte, packets: seq<seq<byte>>): Page {
    Page(0, flags, granule, serial, seqNo, 0, Lacing(packets), Flatten(packets))
  }

  /** The page as written: its checksum covers the page with the checksum field zero. */
  function WrittenPage(serial: nat, seqNo: nat, granule: int64, flags: byte, packets: seq<seq<byte>>): Page {
    var bare := BarePage(serial, seqNo, granule, flags, packets);
    bare.(crc := OggCrc.CrcValue(EncodePage(bare)))
  }

  /** binary.LittleEndian.PutUint32 on bytes 22 to 25. */
  function PutChecksum(page: seq<byte>, v: nat): seq<byte>
    requires |page| >= 26
  {
    page[..22] + LittleEndian(v, 4) + page[26..]
  }

  /** Storing a checksum changes bytes 22 to 25 and nothing else. */
  lemma ChecksumField(p: Page, v: nat)
    ensures |EncodePage(p)| >= 27
    ensures EncodePage(p.(crc := v)) == PutChecksum(EncodePage(p), v)
    ensures EncodePage(p)[22..26] == LittleEndian(p.crc, 4)
  {
    var head := (CapturePattern() + [p.version, p.flags]) + LittleEndian(Unsigned64(p.granule), 8)
              + (LittleEndian(p.serial, 4) + LittleEndian(p.seqNo, 4));
    var tail := [|p.lacing| % 256] + p.lacing + p.payload;
    ChecksumShape(p, head, tail);
    ChecksumShape(p.(crc := v), head, tail);
    var e := EncodePage(p);
    assert e[..22] == head && e[26..] == tail && e[22..26] == LittleEndian(p.crc, 4);
  }

  lemma ChecksumShape(p: Page, head: seq<byte>, tail: seq<byte>)
    requires head == (CapturePattern() + [p.version, p.flags]) + LittleEndian(Unsigned64(p.granule), 8)
                   + (LittleEndian(p.serial, 4) + LittleEndian(p.seqNo, 4))
    requires tail == [|p.lacing| % 256] + p.lacing + p.payload
    ensures EncodePage(p) == head + LittleEndian(p.crc, 4) + tail
    ensures |head| == 22
  {
    var a, b := CapturePattern() + [p.version, p.flags], LittleEndian(Unsigned64(p.granule), 8);
    var c, d := LittleEndian(p.serial, 4) + LittleEndian(p.seqNo, 4), LittleEndian(p.crc, 4);
    Regroup(a, b, c, d, [|p.lacing| % 256], p.lacing, p.payload);
  }

  lemma Regroup(a: seq<byte>, b: seq<byte>, c: seq<byte>, d: seq<byte>, n: seq<byte>, l: seq<byte>, s: seq<byte>)
    ensures (a + b + (c + d + n)) + l + s == (a + b + c) + d + (n + l + s)
  {}

  /**
    Recomputing the checksum over a written page with bytes 22 to 25 zeroed gives
    the stored value.
   */
  lemma StoredChecksum(serial: nat, seqNo: nat, granule: int64, flags: byte, packets: seq<seq<byte>>)
    ensures var e := EncodePage(WrittenPage(serial, seqNo, granule, flags, packets));
      |e| >= 27 && FromLittleEndian(e[22..26]) == OggCrc.CrcValue(e[..22] + [0, 0, 0, 0] + e[26..])
  {
    var bare := BarePage(serial, seqNo, granule, flags, packets);
    var v := OggCrc.CrcValue(EncodePage(bare));
    ChecksumField(bare, v);
    ChecksumField(bare.(crc := v), 0);
    assert bare.(crc := v).(crc := 0) == bare;
    ZeroWord();
    WordSizes();
    LittleEndianRoundTrip(v, 4);
  }

  lemma ZeroWord()
    ensures LittleEndian(0, 4) == [0, 0, 0, 0]
  {
    assert LittleEndian(0, 1) == [0];
    assert LittleEndian(0, 2) == [0, 0];
    assert LittleEndian(0, 3) == [0, 0, 0];
  }

  /** The segment table loop of writeOGGPage. */
  method BuildSegmentTable(packets: seq<seq<byte>>) returns (segTable: seq<byte>)
    ensures segTable == Lacing(packets)
  {
    segTable := [];
    for i := 0 to |packets|
      invariant segTable == Lacing(packets[..i])
    {
      ghost var before := segTable;
      var remaining := |packets[i]|;
      while remaining >= 255
        invariant 0 <= remaining
        invariant segTable + PacketLacing(remaining) == before + PacketLacing(|packets[i]|)
      {
        segTable := segTable + [255];
        remaining := remaining - 255;
      }
      segTable := segTable + [remaining];
      assert packets[..i + 1] == packets[..i] + [packets[i]];
      LacingAppend(packets[..i], [packets[i]]);
      assert Lacing([packets[i]]) == PacketLacing(|packets[i]|) + Lacing([]);
    }
    assert packets[..|packets|] == packets;
  }

  /** The payload loop, shared by the Ogg and CAF writers. */
  method JoinPackets(packets: seq<seq<byte>>) returns (payload: seq<byte>)
    ensures payload == Flatten(packets)
  {
    payload := [];
    for i := 0 to |packets|
      invariant payload == Flatten(packets[..i])
    {
      payload := payload + packets[i];
      assert packets[..i + 1] == packets[..i] + [packets[i]];
      FlattenAppend(packets[..i], [packets[i]]);
      assert Flatten([packets[i]]) == packets[i] + Flatten([]);
    }
    assert packets[..|packets|] == packets;
  }

  /** writeOGGPage: appends one page holding the given packets. */
  method WriteOggPage(buf: Buffer, table: seq<OggCrc.word>, serial: nat, seqNo: nat, granule: int64,
                      flags: byte, packets: seq<seq<byte>>)
    requires OggCrc.IsOggTable(table)
    modifies buf
    ensures buf.data == old(buf.data) + EncodePage(WrittenPage(serial, seqNo, granule, flags, packets))
  {
    var segTable := BuildSegmentTable(packets);
    var payload := JoinPackets(packets);
    var page := Page(0, flags, granule, serial, seqNo, 0, segTable, payload);
    var bytes := EncodePage(page);
    var checksum := OggCrc.Checksum(table, bytes);
    ChecksumField(page, checksum);
    buf.Write(PutChecksum(bytes, checksum));
  }

  // ---- The page packer ----------------------------------------------------------

  type packet = seq<byte>

  /** Whether one more packet stays inside both page limits. */
  predicate Fits(held: seq<packet>, pkt: packet) {
    && |Flatten(held)| + |pkt| <= MAX_PAYLOAD
    && |Lacing(held)| + (|pkt| / 255 + 1) <= MAX_SEGMENTS
  }

  /** The packets of each audio page. */
  function Pack(packets: seq<packet>, held: seq<packet>): seq<seq<packet>> {
    Group(Fits, packets, held)
  }

  /** A packet whose segment count fits the one-byte count field. */
  predicate Laceable(pkt: packet) {
    |pkt| / 255 + 1 <= MAX_SEGMENTS
  }

  predicate GoodGroup(g: seq<packet>) {
    && g != []
    && |Lacing(g)| <= MAX_SEGMENTS
    && (|Flatten(g)| <= MAX_PAYLOAD || |g| == 1)
  }

  lemma SingleGroup(pkt: packet)
    ensures |Lacing([pkt])| == |pkt| / 255 + 1 && |Flatten([pkt])| == |pkt|
  {
    assert Lacing([pkt]) == PacketLacing(|pkt|) + Lacing([]);
    assert Flatten([pkt]) == pkt + Flatten([]);
  }

  lemma GroupGrows(held: seq<packet>, pkt: packet)
    ensures |Lacing(held + [pkt])| == |Lacing(held)| + (|pkt| / 255 + 1)
    ensures |Flatten(held + [pkt])| == |Flatten(held)| + |pkt|
  {
    LacingAppend(held, [pkt]);
    FlattenAppend(held, [pkt]);
    SingleGroup(pkt);
  }

  /** Every group is a nonempty page inside the limits. */
  lemma {:induction false} PackWithinLimits(packets: seq<packet>, held: seq<packet>)
    requires forall p :: p in packets ==> Laceable(p)
    requires held == [] || GoodGroup(held)
    ensures forall g :: g in Pack(packets, held) ==> GoodGroup(g)
    decreases |packets|
  {
    if packets != [] {
      var p, rest := packets[0], packets[1..];
      assert p in packets && forall q :: q in rest ==> q in packets;
      SingleGroup(p);
      if held != [] && !Fits(held, p) {
        PackWithinLimits(rest, [p]);
      } else {
        GroupGrows(held, p);
        assert held == [] ==> held + [p] == [p];
        PackWithinLimits(rest, held + [p]);
      }
    }
  }

  // ---- The page stream ----------------------------------------------------------

  function OpusTags(): (t: packet)
    ensures |t| == 29
  {
    Ascii("OpusTags") + LittleEndian(13, 4) + Ascii("corten-matrix") + LittleEndian(0, 4)
  }

  function Frames(info: OpusInfo): nat
    requires info.packets != []
  {
    PacketFrames(info.packets[0])
  }

  function CappedGranule(preSkip: int64, n: nat, frames: nat, cap: int64): (g: int64)
    ensures g <= cap
  {
    var g: int64 := Wrap64(preSkip + Times(n, frames));
    if g > cap then cap else g
  }

  /** Granule of a page that ends after n packets, capped by the stream's own end. */
  function GranuleAfter(info: OpusInfo, n: nat): (g: int64)
    requires info.packets != []
    ensures g <= info.granulePos
  {
    CappedGranule(info.preSkip, n, Frames(info), info.granulePos)
  }

  /** What distinguishes one page of the stream from another. */
  datatype Draft = Draft(seqNo: nat, granule: int64, flags: byte, packets: seq<packet>)

  function Render(d: Draft): Page {
    WrittenPage(SERIAL, d.seqNo, d.granule, d.flags, d.packets)
  }

  function RenderAll(drafts: seq<Draft>): (pages: seq<Page>)
    ensures |pages| == |drafts| && forall k :: 0 <= k < |drafts| ==> pages[k] == Render(drafts[k])
  {
    seq(|drafts|, k requires 0 <= k < |drafts| => Render(drafts[k]))
  }

  function InnerDraft(info: OpusInfo, groups: seq<seq<packet>>, j: nat): Draft
    requires info.packets != [] && j < |groups|
  {
    Draft(j + 2, GranuleAfter(info, |Flatten(groups[..j + 1])|), 0, groups[j])
  }

  /** The two header pages and every audio page but the last. */
  function DraftsBefore(info: OpusInfo, tags: packet, groups: seq<seq<packet>>): (drafts: seq<Draft>)
    requires info.packets != []
    ensures |drafts| == |groups| + 2
  {
    [Draft(0, 0, 2, [info.opusHead]), Draft(1, 0, 0, [tags])]
    + seq(|groups|, j requires 0 <= j < |groups| => InnerDraft(info, groups, j))
  }

  function FinalDraft(info: OpusInfo, groups: seq<seq<packet>>): Draft
    requires groups != []
  {
    Draft(|groups| + 1, info.granulePos, 4, groups[|groups| - 1])
  }

  /** The whole stream for a packet grouping. */
  function StreamDrafts(info: OpusInfo, tags: packet, groups: seq<seq<packet>>): (drafts: seq<Draft>)
    requires info.packets != [] && groups != []
    ensures |drafts| == |groups| + 2
  {
    DraftsBefore(info, tags, groups[..|groups| - 1]) + [FinalDraft(info, groups)]
  }

  ghost predicate Writable(info: OpusInfo) {
    info.packets != [] && Laceable(info.opusHead) && forall p :: p in info.packets ==> Laceable(p)
  }

  function DraftsOf(info: OpusInfo): seq<Draft>
    requires info.packets != []
  {
    GroupPartitions(Fits, info.packets, []);
    StreamDrafts(info, OpusTags(), Pack(info.packets, []))
  }

  function EncodeDrafts(drafts: seq<Draft>): seq<byte> {
    if drafts == [] then []
    else EncodeDrafts(drafts[..|drafts| - 1]) + EncodePage(Render(drafts[|drafts| - 1]))
  }

  /** The bytes writeOGGOpus produces. */
  function OggStream(info: OpusInfo): seq<byte>
    requires info.packets != []
  {
    EncodeDrafts(DraftsOf(info))
  }

  lemma EncodeOneMore(drafts: seq<Draft>, d: Draft)
    ensures EncodeDrafts(drafts + [d]) == EncodeDrafts(drafts) + EncodePage(Render(d))
  {
    assert (drafts + [d])[..|drafts|] == drafts;
  }

  lemma DraftsBeforeGrows(info: OpusInfo, tags: packet, groups: seq<seq<packet>>, g: seq<packet>)
    requires info.packets != []
    ensures DraftsBefore(info, tags, groups + [g])
         == DraftsBefore(info, tags, groups) + [InnerDraft(info, groups + [g], |groups|)]
  {
    forall j | 0 <= j < |groups|
      ensures InnerDraft(info, groups + [g], j) == InnerDraft(info, groups, j)
    {
      assert (groups + [g])[..j + 1] == groups[..j + 1];
    }
  }

  /** The three write sites of writeOGGOpus: header pages, a full page, the end page. */
  method WriteHeaders(buf: Buffer, table: seq<OggCrc.word>, info: OpusInfo, tags: packet)
    requires OggCrc.IsOggTable(table)
    requires info.packets != [] && buf.data == []
    modifies buf
    ensures buf.data == EncodeDrafts(DraftsBefore(info, tags, []))
  {
    WriteOggPage(buf, table, SERIAL, 0, 0, 2, [info.opusHead]);
    WriteOggPage(buf, table, SERIAL, 1, 0, 0, [tags]);
    HeaderDrafts(info, tags);
  }

  method FlushPage(buf: Buffer, table: seq<OggCrc.word>, info: OpusInfo, seqNo: nat, granule: int64,
                   pagePackets: seq<packet>, ghost tags: packet, ghost groups: seq<seq<packet>>)
    requires OggCrc.IsOggTable(table) && info.packets != []
    requires seqNo == |groups| + 2 && granule == GranuleAfter(info, |Flatten(groups)| + |pagePackets|)
    requires buf.data == EncodeDrafts(DraftsBefore(info, tags, groups))
    modifies buf
    ensures buf.data == EncodeDrafts(DraftsBefore(info, tags, groups + [pagePackets]))
    ensures |Flatten(groups + [pagePackets])| == |Flatten(groups)| + |pagePackets|
  {
    WriteOggPage(buf, table, SERIAL, seqNo, granule, 0, pagePackets);
    CloseGroup(info, tags, groups, pagePackets);
    EncodeOneMore(DraftsBefore(info, tags, groups), Draft(seqNo, granule, 0, pagePackets));
  }

  method WriteEndPage(buf: Buffer, table: seq<OggCrc.word>, info: OpusInfo, seqNo: nat,
                      pagePackets: seq<packet>, ghost tags: packet, ghost groups: seq<seq<packet>>)
    requires OggCrc.IsOggTable(table) && info.packets != []
    requires seqNo == |groups| + 2
    requires buf.data == EncodeDrafts(DraftsBefore(info, tags, groups))
    modifies buf
    ensures buf.data == EncodeDrafts(StreamDrafts(info, tags, groups + [pagePackets]))
  {
    WriteOggPage(buf, table, SERIAL, seqNo, info.granulePos, 4, pagePackets);
    assert (groups + [pagePackets])[..|groups|] == groups;
    EncodeOneMore(DraftsBefore(info, tags, groups), Draft(seqNo, info.granulePos, 4, pagePackets));
  }

  /** Whether the page being filled must be written before the next packet. */
  method MustFlush(packets: seq<packet>, i: nat, held: seq<packet>, size: nat, segs: nat,
                   ghost groups: seq<seq<packet>>) returns (flush: bool)
    requires i < |packets|
    requires size == |Flatten(held)| && segs == |Lacing(held)|
    requires Group(Fits, packets, []) == groups + Group(Fits, packets[i..], held)
    ensures flush ==> held != []
    ensures flush ==>
              Group(Fits, packets, []) == (groups + [held]) + Group(Fits, packets[i + 1..], [] + [packets[i]])
    ensures !flush ==>
              Group(Fits, packets, []) == groups + Group(Fits, packets[i + 1..], held + [packets[i]])
  {
    var pktSegs := |packets[i]| / 255 + 1;
    flush := (size + |packets[i]| > MAX_PAYLOAD || segs + pktSegs > MAX_SEGMENTS) && |held| > 0;
    GroupStep(Fits, packets, i, held, groups);
  }

  /** Appends a packet to the page being filled and keeps its running totals. */
  method HoldPacket(held: seq<packet>, size: nat, segs: nat, pkt: packet)
    returns (held': seq<packet>, size': nat, segs': nat)
    requires size == |Flatten(held)| && segs == |Lacing(held)|
    ensures held' == held + [pkt]
    ensures size' == |Flatten(held')| && segs' == |Lacing(held')|
  {
    GroupGrows(held, pkt);
    held', size', segs' := held + [pkt], size + |pkt|, segs + (|pkt| / 255 + 1);
  }

  method NextGranule(info: OpusInfo, n: nat, framesPerPacket: nat) returns (granule: int64)
    requires info.packets != [] && framesPerPacket == Frames(info)
    ensures granule == GranuleAfter(info, n)
  {
    granule := Wrap64(info.preSkip + n * framesPerPacket);
    if granule > info.granulePos {
      granule := info.granulePos;
    }
  }

  /** Where the packing loop stands before packet i. */
  ghost predicate Packing(info: OpusInfo, tags: packet, i: nat, page: OpenPage,
                          groups: seq<seq<packet>>, data: seq<byte>)
    requires info.packets != [] && i <= |info.packets|
  {
    && Group(Fits, info.packets, []) == groups + Group(Fits, info.packets[i..], page.packets)
    && |Flatten(groups)| + |page.packets| == i
    && (i > 0 ==> page.packets != [] && page.granule == GranuleAfter(info, i))
    && page.size == |Flatten(page.packets)| && page.segs == |Lacing(page.packets)|
    && page.seqNo == |groups| + 2
    && data == EncodeDrafts(DraftsBefore(info, tags, groups))
  }

  /** The page being filled: its number, packets, running totals and end position. */
  datatype OpenPage = OpenPage(seqNo: nat, packets: seq<packet>, size: nat, segs: nat, granule: int64)

  /** One iteration: write the page out if the packet does not fit, then hold the packet. */
  method PackPacket(buf: Buffer, table: seq<OggCrc.word>, info: OpusInfo, tags: packet, i: nat, page: OpenPage,
                    framesPerPacket: nat, ghost groups: seq<seq<packet>>)
    returns (page': OpenPage, ghost groups': seq<seq<packet>>)
    requires OggCrc.IsOggTable(table) && info.packets != [] && i < |info.packets| && framesPerPacket == Frames(info)
    requires Packing(info, tags, i, page, groups, buf.data)
    modifies buf
    ensures Packing(info, tags, i + 1, page', groups', buf.data)
  {
    var pkt := info.packets[i];
    var held := page;
    groups' := groups;
    var flush := MustFlush(info.packets, i, page.packets, page.size, page.segs, groups);
    if flush {
      FlushPage(buf, table, info, page.seqNo, page.granule, page.packets, tags, groups);
      held := OpenPage(page.seqNo + 1, [], 0, 0, page.granule);
      groups' := groups + [page.packets];
    }
    var packets, size, segs := HoldPacket(held.packets, held.size, held.segs, pkt);
    var granule := NextGranule(info, i + 1, framesPerPacket);
    page' := OpenPage(held.seqNo, packets, size, segs, granule);
  }

  lemma StartsPacking(info: OpusInfo, tags: packet, data: seq<byte>)
    requires info.packets != [] && data == EncodeDrafts(DraftsBefore(info, tags, []))
    ensures Packing(info, tags, 0, OpenPage(2, [], 0, 0, 0), [], data)
  {
    assert info.packets[0..] == info.packets;
    assert [] + Group(Fits, info.packets, []) == Group(Fits, info.packets, []);
  }

  /** The packing loop of writeOGGOpus. */
  method WritePages(table: seq<OggCrc.word>, info: OpusInfo, tags: packet) returns (out: seq<byte>)
    requires OggCrc.IsOggTable(table)
    requires info.packets != []
    ensures Group(Fits, info.packets, []) != []
    ensures out == EncodeDrafts(StreamDrafts(info, tags, Group(Fits, info.packets, [])))
  {
    var buf := new Buffer();
    WriteHeaders(buf, table, info, tags);
    var page := OpenPage(2, [], 0, 0, 0);
    var framesPerPacket := PacketFrames(info.packets[0]);
    ghost var groups: seq<seq<packet>> := [];
    StartsPacking(info, tags, buf.data);
    for i := 0 to |info.packets|
      invariant Packing(info, tags, i, page, groups, buf.data)
    {
      page, groups := PackPacket(buf, table, info, tags, i, page, framesPerPacket, groups);
    }
    assert info.packets[|info.packets|..] == [];
    WriteEndPage(buf, table, info, page.seqNo, page.packets, tags, groups);
    out := buf.data;
  }

  /** writeOGGOpus: head page, tags page, then the packed audio pages. */
  method WriteOggOpus(table: seq<OggCrc.word>, info: OpusInfo) returns (out: seq<byte>)
    requires OggCrc.IsOggTable(table)
    requires info.packets != []
    ensures out == OggStream(info)
  {
    out := WritePages(table, info, OpusTags());
  }

  lemma HeaderDrafts(info: OpusInfo, tags: packet)
    requires info.packets != []
    ensures EncodeDrafts(DraftsBefore(info, tags, []))
         == EncodePage(WrittenPage(SERIAL, 0, 0, 2, [info.opusHead]))
          + EncodePage(WrittenPage(SERIAL, 1, 0, 0, [tags]))
  {
    var h, t := Draft(0, 0, 2, [info.opusHead]), Draft(1, 0, 0, [tags]);
    assert DraftsBefore(info, tags, []) == ([] + [h]) + [t];
    EncodeOneMore([], h);
    EncodeOneMore([] + [h], t);
  }

  lemma CloseGroup(info: OpusInfo, tags: packet, groups: seq<seq<packet>>, g: seq<packet>)
    requires info.packets != []
    ensures |Flatten(groups + [g])| == |Flatten(groups)| + |g|
    ensures DraftsBefore(info, tags, groups + [g])
         == DraftsBefore(info, tags, groups)
            + [Draft(|groups| + 2, GranuleAfter(info, |Flatten(groups)| + |g|), 0, g)]
  {
    assert (groups + [g])[..|groups|] == groups;
    assert (groups + [g])[..|groups| + 1] == groups + [g];
    FlattenSnoc(groups, g);
    DraftsBeforeGrows(info, tags, groups, g);
  }

  // ---- The parser -----------------------------------------------------------------

  function OpusHeadMagic(): seq<byte> { [0x4F, 0x70, 0x75, 0x73, 0x48, 0x65, 0x61, 0x64] }

  lemma MagicSpellsOpusHead()
    ensures OpusHeadMagic() == Ascii("OpusHead")
  {}

  predicate IsOpusHead(head: packet) {
    |head| >= 19 && head[..8] == OpusHeadMagic()
  }

  function HeadPreSkip(head: packet): (n: nat)
    requires |head| >= 12
    ensures n < 0x1_0000
  {
    WordSizes();
    FromLittleEndian(head[10..12])
  }

  function InfoOf(s: Stream): Result<OpusInfo> {
    if |s.packets| < 3 then Err
    else
      var head := s.packets[0];
      if !IsOpusHead(head) then Err
      else Ok(OpusInfo(head[9], HeadPreSkip(head), head, s.packets[2..], s.granule))
  }

  function ParseOgg(data: seq<byte>): Result<OpusInfo> {
    match ReadStream(data)
    case Ok(s) => InfoOf(s)
    case Err => Err
  }

  method ParseOggOpus(data: seq<byte>) returns (r: Result<OpusInfo>)
    ensures r == ParseOgg(data)
  {
    var read := ReadOggPackets(data);
    match read
    case Ok(s) => r := InfoOf(s);
    case Err => r := Err;
  }

  // ---- Round trip -------------------------------------------------------------------

  function DraftPackets(drafts: seq<Draft>): seq<packet> {
    if drafts == [] then [] else DraftPackets(drafts[..|drafts| - 1]) + drafts[|drafts| - 1].packets
  }

  function DraftGranule(drafts: seq<Draft>): int64 {
    if drafts == [] then 0
    else if drafts[|drafts| - 1].granule > 0 then drafts[|drafts| - 1].granule
    else DraftGranule(drafts[..|drafts| - 1])
  }

  lemma {:induction false} EncodeAppend(a: seq<Page>, p: Page)
    ensures EncodeStream(a + [p]) == EncodeStream(a) + EncodePage(p)
  {
    if a == [] {
      assert a + [p] == [p] && [p][1..] == [];
      assert EncodeStream([p]) == EncodePage(p) + EncodeStream([]);
    } else {
      assert (a + [p])[1..] == a[1..] + [p];
      EncodeAppend(a[1..], p);
    }
  }

  lemma {:induction false} LacingSnoc(a: seq<Page>, p: Page)
    ensures StreamLacing(a + [p]) == StreamLacing(a) + p.lacing
  {
    if a == [] {
      assert a + [p] == [p] && [p][1..] == [];
      assert StreamLacing([p]) == p.lacing + StreamLacing([]);
    } else {
      assert (a + [p])[1..] == a[1..] + [p];
      LacingSnoc(a[1..], p);
    }
  }

  lemma {:induction false} PayloadSnoc(a: seq<Page>, p: Page)
    ensures StreamPayload(a + [p]) == StreamPayload(a) + p.payload
  {
    if a == [] {
      assert a + [p] == [p] && [p][1..] == [];
      assert StreamPayload([p]) == p.payload + StreamPayload([]);
    } else {
      assert (a + [p])[1..] == a[1..] + [p];
      PayloadSnoc(a[1..], p);
    }
  }

  lemma {:induction false} GranuleSnoc(a: seq<Page>, p: Page, g: int64)
    ensures LastGranule(a + [p], g) == if p.granule > 0 then p.granule else LastGranule(a, g)
    decreases |a|
  {
    if a != [] {
      assert (a + [p])[1..] == a[1..] + [p];
      GranuleSnoc(a[1..], p, if a[0].granule > 0 then a[0].granule else g);
    }
  }

  lemma RenderSnoc(init: seq<Draft>, d: Draft)
    ensures RenderAll(init + [d]) == RenderAll(init) + [Render(d)]
  {}

  lemma {:induction false} DraftBytes(drafts: seq<Draft>)
    ensures EncodeDrafts(drafts) == EncodeStream(RenderAll(drafts))
    decreases |drafts|
  {
    if drafts != [] {
      var init, d := drafts[..|drafts| - 1], drafts[|drafts| - 1];
      assert drafts == init + [d];
      DraftBytes(init);
      RenderSnoc(init, d);
      EncodeAppend(RenderAll(init), Render(d));
    }
  }

  /** A drafted stream carries its packets' lacing and bytes, whatever the page breaks. */
  lemma {:induction false} DraftContents(drafts: seq<Draft>)
    ensures StreamLacing(RenderAll(drafts)) == Lacing(DraftPackets(drafts))
    ensures StreamPayload(RenderAll(drafts)) == Flatten(DraftPackets(drafts))
    ensures LastGranule(RenderAll(drafts), 0) == DraftGranule(drafts)
    decreases |drafts|
  {
    if drafts != [] {
      var init, d := drafts[..|drafts| - 1], drafts[|drafts| - 1];
      assert drafts == init + [d];
      DraftContents(init);
      RenderSnoc(init, d);
      LacingSnoc(RenderAll(init), Render(d));
      PayloadSnoc(RenderAll(init), Render(d));
      GranuleSnoc(RenderAll(init), Render(d), 0);
      LacingAppend(DraftPackets(init), d.packets);
      FlattenAppend(DraftPackets(init), d.packets);
    }
  }

  predicate DraftFits(d: Draft) {
    |Lacing(d.packets)| <= MAX_SEGMENTS
  }

  lemma RenderedPagesAreValid(drafts: seq<Draft>)
    requires forall d :: d in drafts ==> DraftFits(d)
    ensures forall p :: p in RenderAll(drafts) ==> ValidPage(p)
  {
    forall k | 0 <= k < |drafts|
      ensures ValidPage(Render(drafts[k]))
    {
      assert DraftFits(drafts[k]);
      LacingSum(drafts[k].packets);
    }
  }

  /** Reading any drafted stream returns its packets and its last positive granule. */
  lemma ReadDrafts(drafts: seq<Draft>)
    requires forall d :: d in drafts ==> DraftFits(d)
    ensures ReadStream(EncodeDrafts(drafts)) == Ok(Stream(DraftPackets(drafts), DraftGranule(drafts)))
  {
    DraftBytes(drafts);
    DraftContents(drafts);
    RenderedPagesAreValid(drafts);
    ReadLacedPages(RenderAll(drafts), DraftPackets(drafts));
  }

  lemma DraftPacketsSnoc(init: seq<Draft>, d: Draft)
    ensures DraftPackets(init + [d]) == DraftPackets(init) + d.packets
  {
    assert (init + [d])[..|init|] == init;
  }

  lemma HeaderPackets(h: Draft, t: Draft)
    requires |h.packets| == |t.packets| == 1
    ensures DraftPackets([h, t]) == [h.packets[0], t.packets[0]]
  {
    assert [h, t][..1] == [h] && [h][..0] == [];
    assert DraftPackets([h]) == DraftPackets([]) + h.packets;
    assert DraftPackets([h, t]) == DraftPackets([h]) + t.packets;
  }

  /** The packets so far and one more group. */
  lemma PacketsGrow(first: seq<packet>, groups: seq<seq<packet>>, g: seq<packet>)
    ensures (first + Flatten(groups)) + g == first + Flatten(groups + [g])
  {
    FlattenSnoc(groups, g);
  }

  lemma {:induction false} DraftPacketsBefore(info: OpusInfo, tags: packet, groups: seq<seq<packet>>)
    requires info.packets != []
    ensures DraftPackets(DraftsBefore(info, tags, groups)) == [info.opusHead, tags] + Flatten(groups)
    decreases |groups|
  {
    if groups == [] {
      HeaderPackets(Draft(0, 0, 2, [info.opusHead]), Draft(1, 0, 0, [tags]));
    } else {
      var init, g := groups[..|groups| - 1], groups[|groups| - 1];
      assert groups == init + [g];
      DraftPacketsBefore(info, tags, init);
      DraftsBeforeGrows(info, tags, init, g);
      PacketsGrow([info.opusHead, tags], init, g);
      DraftPacketsSnoc(DraftsBefore(info, tags, init), InnerDraft(info, groups, |init|));
    }
  }

  lemma StreamPackets(info: OpusInfo, tags: packet, groups: seq<seq<packet>>)
    requires info.packets != [] && groups != []
    ensures DraftPackets(StreamDrafts(info, tags, groups)) == [info.opusHead, tags] + Flatten(groups)
  {
    var init, g := groups[..|groups| - 1], groups[|groups| - 1];
    assert groups == init + [g];
    PacketsGrow([info.opusHead, tags], init, g);
    DraftPacketsBefore(info, tags, init);
    DraftPacketsSnoc(DraftsBefore(info, tags, init), FinalDraft(info, groups));
  }

  lemma {:induction false} NonpositiveGranules(drafts: seq<Draft>)
    requires forall d :: d in drafts ==> d.granule <= 0
    ensures DraftGranule(drafts) == 0
  {
    if drafts != [] {
      assert drafts[|drafts| - 1] in drafts;
      NonpositiveGranules(drafts[..|drafts| - 1]);
    }
  }

  lemma StreamGranule(info: OpusInfo, tags: packet, groups: seq<seq<packet>>)
    requires info.packets != [] && groups != []
    ensures DraftGranule(StreamDrafts(info, tags, groups)) == if info.granulePos > 0 then info.granulePos else 0
  {
    var drafts := StreamDrafts(info, tags, groups);
    if info.granulePos <= 0 {
      NonpositiveGranules(drafts);
    }
  }

  lemma StreamFits(info: OpusInfo, tags: packet, groups: seq<seq<packet>>)
    requires info.packets != [] && groups != []
    requires Laceable(info.opusHead) && Laceable(tags)
    requires forall g :: g in groups ==> |Lacing(g)| <= MAX_SEGMENTS
    ensures forall d :: d in StreamDrafts(info, tags, groups) ==> DraftFits(d)
  {
    SingleGroup(info.opusHead);
    SingleGroup(tags);
  }

  /** What a reader recovers from any page-by-page grouping of the packets. */
  lemma AnyPageBreaksRoundTrip(info: OpusInfo, tags: packet, groups: seq<seq<packet>>)
    requires info.packets != [] && groups != []
    requires Laceable(info.opusHead) && Laceable(tags)
    requires forall g :: g in groups ==> |Lacing(g)| <= MAX_SEGMENTS
    ensures ReadStream(EncodeDrafts(StreamDrafts(info, tags, groups)))
         == Ok(Stream([info.opusHead, tags] + Flatten(groups), if info.granulePos > 0 then info.granulePos else 0))
  {
    StreamFits(info, tags, groups);
    ReadDrafts(StreamDrafts(info, tags, groups));
    StreamPackets(info, tags, groups);
    StreamGranule(info, tags, groups);
  }

  /** Writing then reading returns exactly the head, the tags packet, every packet and the granule. */
  lemma OggPacketsRoundTrip(info: OpusInfo)
    requires Writable(info)
    ensures ReadStream(OggStream(info))
         == Ok(Stream([info.opusHead, OpusTags()] + info.packets, if info.granulePos > 0 then info.granulePos else 0))
  {
    GroupPartitions(Fits, info.packets, []);
    assert [] + info.packets == info.packets;
    PackWithinLimits(info.packets, []);
    AnyPageBreaksRoundTrip(info, OpusTags(), Pack(info.packets, []));
  }

  function Reparsed(info: OpusInfo): OpusInfo
    requires IsOpusHead(info.opusHead)
  {
    var granule := if info.granulePos > 0 then info.granulePos else 0;
    OpusInfo(info.opusHead[9], HeadPreSkip(info.opusHead), info.opusHead, info.packets, granule)
  }

  /** The information a written stream parses to; a bad OpusHead is the only failure. */
  lemma OggParseRoundTrip(info: OpusInfo)
    requires Writable(info)
    ensures ParseOgg(OggStream(info)).Ok? <==> |info.opusHead| >= 19 && info.opusHead[..8] == Ascii("OpusHead")
    ensures ParseOgg(OggStream(info)).Ok? <==> IsOpusHead(info.opusHead)
    ensures IsOpusHead(info.opusHead) ==> ParseOgg(OggStream(info)) == Ok(Reparsed(info))
  {
    OggPacketsRoundTrip(info);
    MagicSpellsOpusHead();
    assert ([info.opusHead, OpusTags()] + info.packets)[2..] == info.packets;
  }

  /** Exactly when a stream survives the Ogg writer and parser unchanged. */
  lemma OggRoundTripExact(info: OpusInfo)
    requires Writable(info)
    ensures ParseOgg(OggStream(info)) == Ok(info) <==>
      && IsOpusHead(info.opusHead)
      && info.channels == info.opusHead[9] && info.preSkip == HeadPreSkip(info.opusHead)
      && info.granulePos >= 0
  {
    OggParseRoundTrip(info);
  }

  // ---- Shape of the page stream -------------------------------------------------------

  /** Section 6 of RFC 3533: numbering, serial, begin and end flags, and the one-byte segment count. */
  ghost predicate WellPlaced(pages: seq<Page>, k: nat)
    requires k < |pages|
  {
    var p := pages[k];
    && p.seqNo == k && p.serial == 0x4F707573 && p.version == 0 && ValidPage(p)
    && p.flags == if k == 0 then 2 else if k == |pages| - 1 then 4 else 0
  }

  lemma DraftShape(info: OpusInfo, tags: packet, groups: seq<seq<packet>>, k: nat)
    requires info.packets != [] && groups != [] && k < |groups| + 2
    ensures var d := StreamDrafts(info, tags, groups)[k];
      d.seqNo == k && d.flags == if k == 0 then 2 else if k == |groups| + 1 then 4 else 0
  {}

  lemma AnyStreamShape(info: OpusInfo, tags: packet, groups: seq<seq<packet>>)
    requires info.packets != [] && groups != []
    requires Laceable(info.opusHead) && Laceable(tags)
    requires forall g :: g in groups ==> |Lacing(g)| <= MAX_SEGMENTS
    ensures forall k :: 0 <= k < |groups| + 2 ==> WellPlaced(RenderAll(StreamDrafts(info, tags, groups)), k)
  {
    var drafts := StreamDrafts(info, tags, groups);
    StreamFits(info, tags, groups);
    RenderedPagesAreValid(drafts);
    var pages := RenderAll(drafts);
    forall k | 0 <= k < |drafts|
      ensures WellPlaced(pages, k)
    {
      assert pages[k] in pages;
      DraftShape(info, tags, groups, k);
    }
  }

  lemma PageStreamShape(info: OpusInfo)
    requires Writable(info)
    ensures var pages := RenderAll(DraftsOf(info));
      && OggStream(info) == EncodeStream(pages)
      && |pages| >= 3
      && forall k :: 0 <= k < |pages| ==> WellPlaced(pages, k)
  {
    DraftBytes(DraftsOf(info));
    GroupPartitions(Fits, info.packets, []);
    PackWithinLimits(info.packets, []);
    AnyStreamShape(info, OpusTags(), Pack(info.packets, []));
  }

  /**
    A new audio page is begun only where the packet would take the last one past 48000
    bytes or 255 segments.
   */
  lemma PagesAreFull(info: OpusInfo, j: nat)
    requires 0 < j < |Pack(info.packets, [])|
    ensures var groups := Pack(info.packets, []);
      && groups[j] != []
      && (|Flatten(groups[j - 1])| + |groups[j][0]| > 48000
          || |Lacing(groups[j - 1])| + |Lacing([groups[j][0]])| > 255)
  {
    GroupIsGreedy(Fits, info.packets, []);
    assert ForcedBreak(Fits, Pack(info.packets, []), j);
    SingleGroup(Pack(info.packets, [])[j][0]);
  }

  /** The comment header of section 5.2 of RFC 7845: the vendor's length and name, and no comments. */
  lemma TagsFields()
    ensures var tags := OpusTags();
      && |tags| == 29 && tags[..8] == Ascii("OpusTags")
      && FromLittleEndian(tags[8..12]) == |Ascii("corten-matrix")| && tags[12..25] == Ascii("corten-matrix")
      && FromLittleEndian(tags[25..29]) == 0
  {
    TagsParts(Ascii("OpusTags"), LittleEndian(13, 4), Ascii("corten-matrix"), LittleEndian(0, 4));
    WordSizes();
    LittleEndianRoundTrip(13, 4);
    LittleEndianRoundTrip(0, 4);
  }

  lemma TagsParts(magic: seq<byte>, size: seq<byte>, vendor: seq<byte>, count: seq<byte>)
    requires |magic| == 8 && |size| == |count| == 4 && |vendor| == 13
    ensures var tags := magic + size + vendor + count;
      tags[..8] == magic && tags[8..12] == size && tags[12..25] == vendor && tags[25..29] == count
  {}

  lemma {:induction false} FlattenPrefixGrows<T>(groups: seq<seq<T>>, j: nat, k: nat)
    requires j <= k <= |groups|
    ensures |Flatten(groups[..j])| <= |Flatten(groups[..k])|
    decreases k
  {
    if j < k {
      assert groups[..k] == groups[..k - 1] + [groups[k - 1]];
      FlattenSnoc(groups[..k - 1], groups[k - 1]);
      FlattenPrefixGrows(groups, j, k - 1);
    }
  }

  lemma CappedMonotone(preSkip: int64, m: nat, n: nat, total: nat, frames: nat, cap: int64)
    requires m <= n <= total && 0 <= preSkip && preSkip + Times(total, frames) < TWO63
    ensures CappedGranule(preSkip, m, frames, cap) <= CappedGranule(preSkip, n, frames, cap)
    ensures cap >= 0 ==> CappedGranule(preSkip, m, frames, cap) >= 0
  {
    MulMonotone(m, n, frames);
    MulMonotone(n, total, frames);
  }

  lemma MulMonotone(m: nat, n: nat, f: nat)
    requires m <= n
    ensures 0 <= m * f <= n * f
  {
    assert n * f == m * f + (n - m) * f;
  }

  /** The stream's length in samples stays within 64 bits. */
  ghost predicate LengthFits(info: OpusInfo) {
    info.packets != [] && 0 <= info.preSkip && info.preSkip + Times(|info.packets|, Frames(info)) < TWO63
  }

  ghost predicate Ascending(drafts: seq<Draft>) {
    forall j, k :: 0 <= j <= k < |drafts| ==> drafts[j].granule <= drafts[k].granule
  }

  /**
    The pages' granules never decrease, and so are bounded by the final one, exactly
    when the stream's own end position is not negative.
   */
  lemma GranulesAscendExactly(info: OpusInfo, tags: packet, groups: seq<seq<packet>>)
    requires LengthFits(info) && groups != [] && Flatten(groups) == info.packets
    ensures Ascending(StreamDrafts(info, tags, groups)) <==> info.granulePos >= 0
    ensures StreamDrafts(info, tags, groups)[|groups| + 1].granule == info.granulePos
  {
    var drafts := StreamDrafts(info, tags, groups);
    assert drafts[0].granule == 0 && drafts[|drafts| - 1].granule == info.granulePos;
    if info.granulePos >= 0 {
      forall j, k | 0 <= j <= k < |drafts|
        ensures drafts[j].granule <= drafts[k].granule
      {
        DraftGranuleAt(info, tags, groups, j);
        DraftGranuleAt(info, tags, groups, k);
        OrderedGranules(info.preSkip, Frames(info), info.granulePos, groups, j, k);
      }
    }
  }

  /** The same for the pages the writer produces. */
  lemma WrittenGranulesAscend(info: OpusInfo)
    requires Writable(info) && LengthFits(info)
    ensures Ascending(DraftsOf(info)) <==> info.granulePos >= 0
  {
    GroupPartitions(Fits, info.packets, []);
    assert [] + info.packets == info.packets;
    GranulesAscendExactly(info, OpusTags(), Pack(info.packets, []));
  }

  /** End position of the k-th page of a stream, from the numbers that decide it. */
  ghost function GranuleAt(preSkip: int64, frames: nat, end: int64, groups: seq<seq<packet>>, k: nat): (g: int64)
    requires k < |groups| + 2
  {
    if k < 2 then 0
    else if k == |groups| + 1 then end
    else CappedGranule(preSkip, |Flatten(groups[..k - 1])|, frames, end)
  }

  lemma DraftGranuleAt(info: OpusInfo, tags: packet, groups: seq<seq<packet>>, k: nat)
    requires info.packets != [] && groups != [] && k < |groups| + 2
    ensures StreamDrafts(info, tags, groups)[k].granule
         == GranuleAt(info.preSkip, Frames(info), info.granulePos, groups, k)
  {
    if 2 <= k < |groups| + 1 {
      assert groups[..|groups| - 1][..k - 1] == groups[..k - 1];
    }
  }

  lemma OrderedGranules(preSkip: int64, frames: nat, end: int64, groups: seq<seq<packet>>, j: nat, k: nat)
    requires 0 <= preSkip && preSkip + Times(|Flatten(groups)|, frames) < TWO63 && end >= 0
    requires groups != [] && j <= k < |groups| + 2
    ensures GranuleAt(preSkip, frames, end, groups, j) <= GranuleAt(preSkip, frames, end, groups, k)
  {
    if 2 <= k <= |groups| {
      InnerGranules(preSkip, frames, end, groups, if j < 2 then k - 1 else j - 1, k - 1);
    }
  }

  /** End positions of the inner pages. */
  lemma InnerGranules(preSkip: int64, frames: nat, end: int64, groups: seq<seq<packet>>, m: nat, k: nat)
    requires 0 <= preSkip && preSkip + Times(|Flatten(groups)|, frames) < TWO63 && end >= 0
    requires m <= k <= |groups|
    ensures 0 <= CappedGranule(preSkip, |Flatten(groups[..m])|, frames, end)
              <= CappedGranule(preSkip, |Flatten(groups[..k])|, frames, end)
  {
    assert groups[..|groups|] == groups;
    FlattenPrefixGrows(groups, k, |groups|);
    FlattenPrefixGrows(groups, m, k);
    CappedMonotone(preSkip, |Flatten(groups[..m])|, |Flatten(groups[..k])|, |Flatten(groups)|, frames, end);
  }
}
