/** The CAF Opus parser and writer, and the round trip between them. */
module CafOpus {
  import opened Bytes
  import opened Collections
  import opened CafTable
  import opened OpusToc
  import opened OggOpus

  /** A Go call ends in a value, an error, or a run-time panic. */
  datatype Outcome<T> = Parsed(value: T) | Rejected | Panics

  function DescType(): seq<byte> { [0x64, 0x65, 0x73, 0x63] }
  function MagcType(): seq<byte> { [0x6D, 0x61, 0x67, 0x63] }
  function PaktType(): seq<byte> { [0x70, 0x61, 0x6B, 0x74] }
  function DataType(): seq<byte> { [0x64, 0x61, 0x74, 0x61] }
  function OpusFormat(): seq<byte> { [0x6F, 0x70, 0x75, 0x73] }
  function FileType(): seq<byte> { [0x63, 0x61, 0x66, 0x66] }

  function Word32(s: seq<byte>): (n: nat)
    requires |s| == 4
    ensures n < TWO32
  {
    WordSizes();
    FromBigEndian(s)
  }

  function Int64(s: seq<byte>): int64
    requires |s| == 8
  {
    WordSizes();
    Signed64(FromBigEndian(s))
  }

  // ---- Parser ------------------------------------------------------------------

  datatype CafState = CafState(
    opusHead: Option<seq<byte>>, channels: int, preSkip: int,
    bytesPerPacket: nat, framesPerPacket: nat,
    validFrames: int64, primingFrames: int, numPackets: int64,
    vlqData: Option<seq<byte>>, audioData: seq<byte>)

  function InitialState(): CafState {
    CafState(None, 0, 0, 0, 0, 0, 0, 0, None, [])
  }

  /** What reading one chunk leaves behind: the new state and the unread bytes. */
  datatype Chunk = Chunk(state: CafState, rest: seq<byte>)

  function Skip(rest: seq<byte>, n: int): (r: seq<byte>)
    ensures |r| <= |rest|
  {
    if n <= 0 then rest else if n >= |rest| then [] else rest[n..]
  }

  function DescChunk(st: CafState, size: int, rest: seq<byte>): Outcome<Chunk> {
    if size < 32 || |rest| < 32 || rest[8..12] != OpusFormat() then Rejected
    else
      Parsed(Chunk(st.(bytesPerPacket := Word32(rest[16..20]), framesPerPacket := Word32(rest[20..24]),
                       channels := Word32(rest[24..28])),
                   Skip(rest[32..], size - 32)))
  }

  function TakeCookie(st: CafState, cookie: seq<byte>): CafState {
    if |cookie| >= 12 && cookie[..8] == OpusHeadMagic() then
      st.(opusHead := Some(cookie), preSkip := HeadPreSkip(cookie),
          channels := if cookie[9] > 0 then cookie[9] else st.channels)
    else st
  }

  function MagcChunk(st: CafState, size: int, rest: seq<byte>): Outcome<Chunk> {
    if size < 0 then Panics
    else if |rest| < size then Rejected
    else Parsed(Chunk(TakeCookie(st, rest[..size]), rest[size..]))
  }

  function PaktChunk(st: CafState, size: int, rest: seq<byte>): Outcome<Chunk> {
    if size < 24 || |rest| < size then Rejected
    else
      Parsed(Chunk(st.(numPackets := Int64(rest[..8]), validFrames := Int64(rest[8..16]),
                       primingFrames := Signed32(Word32(rest[16..20])), vlqData := Some(rest[24..size])),
                   rest[size..]))
  }

  function WithoutEditCount(audio: seq<byte>): seq<byte> {
    if |audio| >= 4 then audio[4..] else audio
  }

  function DataChunk(st: CafState, size: int, rest: seq<byte>): Outcome<Chunk> {
    if size == -1 then Parsed(Chunk(st.(audioData := WithoutEditCount(rest)), []))
    else if size < 0 then Panics
    else if |rest| < size then Rejected
    else Parsed(Chunk(st.(audioData := WithoutEditCount(rest[..size])), rest[size..]))
  }

  function ReadChunk(st: CafState, kind: seq<byte>, size: int, rest: seq<byte>): (c: Outcome<Chunk>)
    ensures c.Parsed? ==> |c.value.rest| <= |rest|
  {
    if kind == DescType() then DescChunk(st, size, rest)
    else if kind == MagcType() then MagcChunk(st, size, rest)
    else if kind == PaktType() then PaktChunk(st, size, rest)
    else if kind == DataType() then DataChunk(st, size, rest)
    else Parsed(Chunk(st, Skip(rest, size)))
  }

  function ReadChunks(data: seq<byte>, st: CafState): Outcome<CafState>
    decreases |data|
  {
    if |data| < 12 then Parsed(st)
    else
      match ReadChunk(st, data[..4], Int64(data[4..12]), data[12..])
      case Parsed(c) => ReadChunks(c.rest, c.state)
      case Rejected => Rejected
      case Panics => Panics
  }

  function BuildOpusHead(channels: int, preSkip: int): seq<byte> {
    OpusHeadMagic() + [1, channels % 256] + LittleEndian(preSkip % 0x1_0000, 2) + LittleEndian(48000, 4) + [0, 0, 0]
  }

  /** Sizes of all packets: constant, from the table, or missing. */
  function PacketSizes(st: CafState): Outcome<seq<int>> {
    if st.bytesPerPacket == 0 && st.vlqData.None? then Rejected
    else if st.numPackets < 0 then Panics
    else if st.bytesPerPacket > 0 then Parsed(seq(st.numPackets, i => st.bytesPerPacket))
    else Parsed(DecodeSizes(st.vlqData.value, st.numPackets, st.framesPerPacket == 0))
  }

  /** Cuts the audio at the given sizes; stops at the first that runs past the end. */
  function Split(audio: seq<byte>, offset: nat, sizes: seq<int>): Outcome<seq<packet>>
    requires offset <= |audio|
    decreases |sizes|
  {
    if sizes == [] then Parsed([])
    else
      var end := Wrap64(offset + sizes[0]);
      if end > |audio| then Parsed([])
      else if end < offset then Panics
      else
        match Split(audio, end, sizes[1..])
        case Parsed(packets) => Parsed([audio[offset..end]] + packets)
        case other => other
  }

  function Assemble(st: CafState, packets: seq<packet>): OpusInfo {
    var channels := if st.channels == 0 then 1 else st.channels;
    var head := if st.opusHead.Some? then st.opusHead.value else BuildOpusHead(channels, st.preSkip);
    var frames := if st.framesPerPacket == 0 then 960 else st.framesPerPacket;
    var granule := Wrap64(st.validFrames + st.primingFrames);
    OpusInfo(Wrap64(channels), Wrap64(st.preSkip), head, packets,
             if granule <= 0 then Wrap64(Times(|packets|, frames)) else granule)
  }

  function FinishCaf(st: CafState): Outcome<OpusInfo> {
    match PacketSizes(st)
    case Rejected => Rejected
    case Panics => Panics
    case Parsed(sizes) =>
      match Split(st.audioData, 0, sizes)
      case Parsed(packets) => Parsed(Assemble(st, packets))
      case Rejected => Rejected
      case Panics => Panics
  }

  function ParseCaf(data: seq<byte>): Outcome<OpusInfo> {
    if |data| < 8 || data[..4] != FileType() then Rejected
    else
      match ReadChunks(data[8..], InitialState())
      case Parsed(st) => FinishCaf(st)
      case Rejected => Rejected
      case Panics => Panics
  }

  /** The chunk loop of parseCAFOpus. */
  method ReadAllChunks(data: seq<byte>) returns (r: Outcome<CafState>)
    ensures r == ReadChunks(data, InitialState())
  {
    var rest, st := data, InitialState();
    while |rest| >= 12
      invariant ReadChunks(rest, st) == ReadChunks(data, InitialState())
      decreases |rest|
    {
      var c := ReadChunk(st, rest[..4], Int64(rest[4..12]), rest[12..]);
      match c
      case Rejected => return Rejected;
      case Panics => return Panics;
      case Parsed(chunk) =>
        rest, st := chunk.rest, chunk.state;
    }
    r := Parsed(st);
  }

  /** The packet loop of parseCAFOpus. */
  method SplitPackets(audio: seq<byte>, sizes: seq<int>) returns (r: Outcome<seq<packet>>)
    ensures r == Split(audio, 0, sizes)
  {
    var packets: seq<packet> := [];
    var offset := 0;
    assert sizes[0..] == sizes;
    PrependNothing(Split(audio, 0, sizes));
    for i := 0 to |sizes|
      invariant 0 <= offset <= |audio|
      invariant Split(audio, 0, sizes) == Prepend(packets, Split(audio, offset, sizes[i..]))
    {
      var end := Wrap64(offset + sizes[i]);
      assert sizes[i..][1..] == sizes[i + 1..];
      if end > |audio| {
        assert packets + [] == packets;
        return Parsed(packets);
      }
      if end < offset {
        return Panics;
      }
      PrependMore(packets, audio[offset..end], Split(audio, end, sizes[i + 1..]));
      packets := packets + [audio[offset..end]];
      offset := end;
    }
    assert packets + [] == packets;
    r := Parsed(packets);
  }

  function Prepend(packets: seq<packet>, r: Outcome<seq<packet>>): Outcome<seq<packet>> {
    match r
    case Parsed(more) => Parsed(packets + more)
    case other => other
  }

  lemma PrependNothing(r: Outcome<seq<packet>>)
    ensures Prepend([], r) == r
  {
    if r.Parsed? {
      assert [] + r.value == r.value;
    }
  }

  lemma PrependMore(packets: seq<packet>, p: packet, r: Outcome<seq<packet>>)
    ensures Prepend(packets, Prepend([p], r)) == Prepend(packets + [p], r)
  {
    if r.Parsed? {
      assert packets + ([p] + r.value) == (packets + [p]) + r.value;
    }
  }

  method ParseCafOpus(data: seq<byte>) returns (r: Outcome<OpusInfo>)
    ensures r == ParseCaf(data)
  {
    if |data| < 8 || data[..4] != FileType() {
      return Rejected;
    }
    var chunks := ReadAllChunks(data[8..]);
    if !chunks.Parsed? {
      return if chunks.Rejected? then Rejected else Panics;
    }
    var st := chunks.value;
    var sizes;
    if st.bytesPerPacket == 0 && st.vlqData.Some? && st.numPackets >= 0 {
      sizes := DecodeCafPacketSizes(st.vlqData.value, st.numPackets, st.framesPerPacket == 0);
    } else {
      var fixed := PacketSizes(st);
      if !fixed.Parsed? {
        return if fixed.Rejected? then Rejected else Panics;
      }
      sizes := fixed.value;
    }
    var packets := SplitPackets(st.audioData, sizes);
    match packets
    case Parsed(ps) => r := Parsed(Assemble(st, ps));
    case Rejected => r := Rejected;
    case Panics => r := Panics;
  }

  // ---- Writer -------------------------------------------------------------------

  function ChunkBytes(kind: seq<byte>, body: seq<byte>): seq<byte> {
    kind + BigEndian(|body|, 8) + body
  }

  /** The IEEE 754 bits of 48000.0. */
  const SAMPLE_RATE_BITS := 0x40E7_7000_0000_0000

  /** Sign 0, exponent 15, and a significand that makes the value 48000. */
  lemma SampleRateIs48000()
    ensures var exponent, fraction := SAMPLE_RATE_BITS / 0x10_0000_0000_0000, SAMPLE_RATE_BITS % 0x10_0000_0000_0000;
      exponent - 1023 == 15 && (0x10_0000_0000_0000 + fraction) * 0x8000 == 48000 * 0x10_0000_0000_0000
  {}

  function DescBody(info: OpusInfo, frames: nat): (d: seq<byte>)
    ensures |d| == 32
  {
    (BigEndian(SAMPLE_RATE_BITS, 8) + OpusFormat() + BigEndian(0, 4))
    + BigEndian(0, 4) + BigEndian(frames, 4) + BigEndian(info.channels % TWO32, 4) + BigEndian(0, 4)
  }

  function ValidFrames(info: OpusInfo, frames: nat): (v: int64) {
    var v := Wrap64(info.granulePos - info.preSkip);
    if v <= 0 then Wrap64(Times(|info.packets|, frames)) else v
  }

  function PaktBody(info: OpusInfo, frames: nat): seq<byte> {
    (BigEndian(|info.packets|, 8) + BigEndian(Unsigned64(ValidFrames(info, frames)), 8)
     + BigEndian(info.preSkip % TWO32, 4) + BigEndian(0, 4))
    + VlqTable(info.packets)
  }

  function DataBody(info: OpusInfo): seq<byte> {
    BigEndian(0, 4) + Flatten(info.packets)
  }

  function FileHeader(): (h: seq<byte>)
    ensures |h| == 8
  {
    FileType() + BigEndian(1, 2) + BigEndian(0, 2)
  }

  function CafChunks(info: OpusInfo, frames: nat): seq<byte> {
    ChunkBytes(DescType(), DescBody(info, frames))
    + (ChunkBytes(MagcType(), info.opusHead)
       + (ChunkBytes(PaktType(), PaktBody(info, frames))
          + ChunkBytes(DataType(), DataBody(info))))
  }

  /** The bytes writeCAFOpus produces. */
  function CafFile(info: OpusInfo): seq<byte>
    requires info.packets != []
  {
    FileHeader() + CafChunks(info, Frames(info))
  }

  lemma TableSplit(packets: seq<packet>, i: nat, table: seq<byte>, q: seq<byte>)
    requires i < |packets| && q == Vlq(|packets[i]|)
    ensures table + VlqTable(packets[i..]) == (table + q) + VlqTable(packets[i + 1..])
  {
    assert packets[i..][0] == packets[i] && packets[i..][1..] == packets[i + 1..];
  }

  method BuildPacketTable(packets: seq<packet>) returns (table: seq<byte>)
    requires forall p :: p in packets ==> |p| < TWO63
    ensures table == VlqTable(packets)
  {
    table := [];
    for i := 0 to |packets|
      invariant table + VlqTable(packets[i..]) == VlqTable(packets)
    {
      var q := CafVlq(|packets[i]|);
      TableSplit(packets, i, table, q);
      table := table + q;
    }
    assert packets[|packets|..] == [];
  }

  /** writeCAFOpus: an error without audio, otherwise the four chunks in order. */
  method WriteCafOpus(info: OpusInfo) returns (r: Outcome<seq<byte>>)
    requires forall p :: p in info.packets ==> |p| < TWO63
    ensures r == if info.packets == [] then Rejected else Parsed(CafFile(info))
  {
    if info.packets == [] {
      return Rejected;
    }
    var frames := PacketFrames(info.packets[0]);
    var table := BuildPacketTable(info.packets);
    var audio := JoinPackets(info.packets);
    var buf := new Buffer();
    buf.Write(FileHeader());
    buf.Write(ChunkBytes(DescType(), DescBody(info, frames)));
    buf.Write(ChunkBytes(MagcType(), info.opusHead));
    var pakt := (BigEndian(|info.packets|, 8) + BigEndian(Unsigned64(ValidFrames(info, frames)), 8)
                 + BigEndian(info.preSkip % TWO32, 4) + BigEndian(0, 4)) + table;
    buf.Write(ChunkBytes(PaktType(), pakt));
    buf.Write(ChunkBytes(DataType(), BigEndian(0, 4) + audio));
    Reassociate(FileHeader(), ChunkBytes(DescType(), DescBody(info, frames)), ChunkBytes(MagcType(), info.opusHead),
                ChunkBytes(PaktType(), pakt), ChunkBytes(DataType(), BigEndian(0, 4) + audio));
    r := Parsed(buf.data);
  }

  lemma Reassociate(a: seq<byte>, b: seq<byte>, c: seq<byte>, d: seq<byte>, e: seq<byte>)
    ensures [] + a + b + c + d + e == a + (b + (c + (d + e)))
  {}

  // ---- Round trip ------------------------------------------------------------------

  lemma ChunkShape(kind: seq<byte>, body: seq<byte>, rest: seq<byte>)
    requires |kind| == 4 && |body| < TWO63
    ensures var data := ChunkBytes(kind, body) + rest;
      |data| >= 12 && data[..4] == kind && Int64(data[4..12]) == |body| && data[12..] == body + rest
  {
    var data := ChunkBytes(kind, body) + rest;
    ThreeParts(kind, BigEndian(|body|, 8), body, rest);
    Int64Field(|body|, |body|);
  }

  lemma ThreeParts(a: seq<byte>, b: seq<byte>, c: seq<byte>, d: seq<byte>)
    ensures var s := a + b + c + d;
      s[..|a|] == a && s[|a|..|a| + |b|] == b && s[|a| + |b|..] == c + d
  {}

  /** A chunk reader that consumes its body hands over to the next chunk. */
  lemma NextChunk(st: CafState, kind: seq<byte>, body: seq<byte>, rest: seq<byte>, st': CafState)
    requires |kind| == 4 && |body| < TWO63
    requires ReadChunk(st, kind, |body|, body + rest) == Parsed(Chunk(st', rest))
    ensures ReadChunks(ChunkBytes(kind, body) + rest, st) == ReadChunks(rest, st')
  {
    ChunkShape(kind, body, rest);
  }

  lemma Int64Field(v: int64, u: nat)
    requires u < TWO64 && Signed64(u) == v
    ensures Int64(BigEndian(u, 8)) == v
  {
    WordSizes();
    BigEndianRoundTrip(u, 8);
  }

  lemma Word32Field(n: nat)
    requires n < TWO32
    ensures Word32(BigEndian(n, 4)) == n
  {
    WordSizes();
    BigEndianRoundTrip(n, 4);
  }

  function AfterDesc(info: OpusInfo, frames: nat): CafState {
    InitialState().(framesPerPacket := frames, channels := info.channels % TWO32)
  }

  lemma DescFields(a: seq<byte>, b: seq<byte>, c: seq<byte>, d: seq<byte>, e: seq<byte>, f: seq<byte>, g: seq<byte>,
                   rest: seq<byte>)
    requires |a| == 8 && |b| == |c| == |d| == |e| == |f| == |g| == 4
    ensures var s := (a + b + c) + d + e + f + g + rest;
      s[8..12] == b && s[16..20] == d && s[20..24] == e && s[24..28] == f && s[32..] == rest
  {}

  lemma DescStep(info: OpusInfo, frames: nat, rest: seq<byte>)
    requires frames < TWO32
    ensures ReadChunk(InitialState(), DescType(), 32, DescBody(info, frames) + rest)
         == Parsed(Chunk(AfterDesc(info, frames), rest))
  {
    DescFields(BigEndian(SAMPLE_RATE_BITS, 8), OpusFormat(), BigEndian(0, 4), BigEndian(0, 4), BigEndian(frames, 4),
               BigEndian(info.channels % TWO32, 4), BigEndian(0, 4), rest);
    Word32Field(0);
    Word32Field(frames);
    Word32Field(info.channels % TWO32);
  }

  lemma MagcStep(st: CafState, head: seq<byte>, rest: seq<byte>)
    ensures ReadChunk(st, MagcType(), |head|, head + rest) == Parsed(Chunk(TakeCookie(st, head), rest))
  {
    assert (head + rest)[..|head|] == head && (head + rest)[|head|..] == rest;
  }

  function AfterPakt(st: CafState, info: OpusInfo, frames: nat): CafState {
    st.(numPackets := Wrap64(|info.packets|), validFrames := ValidFrames(info, frames),
        primingFrames := Signed32(info.preSkip % TWO32), vlqData := Some(VlqTable(info.packets)))
  }

  lemma PaktFields(a: seq<byte>, b: seq<byte>, c: seq<byte>, d: seq<byte>, table: seq<byte>, rest: seq<byte>)
    requires |a| == |b| == 8 && |c| == |d| == 4
    ensures var s := (a + b + c + d) + table + rest;
      && s[..8] == a && s[8..16] == b && s[16..20] == c
      && s[24..24 + |table|] == table && s[24 + |table|..] == rest
  {}

  /** A packet-table chunk with the given field values. */
  lemma PaktRaw(st: CafState, n: int64, v: int64, priming: nat, table: seq<byte>, rest: seq<byte>)
    requires n >= 0 && priming < TWO32
    ensures var fields := BigEndian(n, 8) + BigEndian(Unsigned64(v), 8) + BigEndian(priming, 4) + BigEndian(0, 4);
      var body := fields + table;
      PaktChunk(st, |body|, body + rest)
      == Parsed(Chunk(st.(numPackets := n, validFrames := v, primingFrames := Signed32(priming),
                          vlqData := Some(table)),
                      rest))
  {
    var a, b, c, d := BigEndian(n, 8), BigEndian(Unsigned64(v), 8), BigEndian(priming, 4), BigEndian(0, 4);
    PaktFields(a, b, c, d, table, rest);
    Int64Field(n, n);
    Int64Field(v, Unsigned64(v));
    Word32Field(priming);
    PaktRead(st, (a + b + c + d) + table + rest, a, b, c, table, rest);
  }

  /** The packet-table chunk read from bytes whose fields are known. */
  lemma PaktRead(st: CafState, s: seq<byte>, a: seq<byte>, b: seq<byte>, c: seq<byte>,
                 table: seq<byte>, rest: seq<byte>)
    requires |a| == |b| == 8 && |c| == 4 && |s| == 24 + |table| + |rest|
    requires s[..8] == a && s[8..16] == b && s[16..20] == c
    requires s[24..24 + |table|] == table && s[24 + |table|..] == rest
    ensures PaktChunk(st, 24 + |table|, s)
         == Parsed(Chunk(st.(numPackets := Int64(a), validFrames := Int64(b), primingFrames := Signed32(Word32(c)),
                             vlqData := Some(table)),
                         rest))
  {}

  lemma PaktStep(st: CafState, info: OpusInfo, frames: nat, rest: seq<byte>)
    requires |info.packets| < TWO63
    ensures ReadChunk(st, PaktType(), |PaktBody(info, frames)|, PaktBody(info, frames) + rest)
         == Parsed(Chunk(AfterPakt(st, info, frames), rest))
  {
    PaktRaw(st, |info.packets|, ValidFrames(info, frames), info.preSkip % TWO32, VlqTable(info.packets), rest);
  }

  lemma DataStep(st: CafState, info: OpusInfo)
    ensures ReadChunk(st, DataType(), |DataBody(info)|, DataBody(info) + [])
         == Parsed(Chunk(st.(audioData := Flatten(info.packets)), []))
  {
    var body := DataBody(info);
    assert (body + [])[..|body|] == body && (body + [])[|body|..] == [];
    assert body[4..] == Flatten(info.packets);
  }

  ghost predicate FitsMemory(info: OpusInfo) {
    && |info.packets| < TWO63 && |info.opusHead| < TWO63
    && 24 + |VlqTable(info.packets)| < TWO63 && 4 + |Flatten(info.packets)| < TWO63
  }

  /** The four chunks leave the parser exactly the fields the writer was given. */
  lemma ReadWrittenChunks(info: OpusInfo, frames: nat)
    requires FitsMemory(info) && frames < TWO32
    ensures ReadChunks(CafChunks(info, frames), InitialState())
         == Parsed(AfterPakt(TakeCookie(AfterDesc(info, frames), info.opusHead), info, frames)
                   .(audioData := Flatten(info.packets)))
  {
    var st1 := AfterDesc(info, frames);
    var st2 := TakeCookie(st1, info.opusHead);
    var st3 := AfterPakt(st2, info, frames);
    var data := ChunkBytes(DataType(), DataBody(info));
    var pakt := ChunkBytes(PaktType(), PaktBody(info, frames)) + data;
    var magc := ChunkBytes(MagcType(), info.opusHead) + pakt;
    DescStep(info, frames, magc);
    NextChunk(InitialState(), DescType(), DescBody(info, frames), magc, st1);
    MagcStep(st1, info.opusHead, pakt);
    NextChunk(st1, MagcType(), info.opusHead, pakt, st2);
    PaktStep(st2, info, frames, data);
    NextChunk(st2, PaktType(), PaktBody(info, frames), data, st3);
    DataStep(st3, info);
    assert data + [] == data;
    NextChunk(st3, DataType(), DataBody(info), [], st3.(audioData := Flatten(info.packets)));
  }

  lemma {:induction false} ConcatAt(packets: seq<packet>, audio: seq<byte>, offset: nat)
    requires offset <= |audio| && audio[offset..] == Flatten(packets)
    requires |audio| < TWO63
    ensures Split(audio, offset, Lengths(packets)) == Parsed(packets)
    decreases |packets|
  {
    if packets != [] {
      var p, rest := packets[0], packets[1..];
      var end := offset + |p|;
      assert Flatten(packets) == p + Flatten(rest);
      assert |audio[offset..]| == |p| + |Flatten(rest)|;
      assert audio[offset..end] == audio[offset..][..|p|] == p;
      assert audio[end..] == audio[offset..][|p|..] == Flatten(rest);
      ConcatAt(rest, audio, end);
      assert Lengths(packets)[1..] == Lengths(rest);
      assert [p] + rest == packets;
    }
  }

  lemma {:induction false} PacketsInMemory(packets: seq<packet>)
    ensures forall p :: p in packets ==> |p| <= |Flatten(packets)|
  {
    if packets != [] {
      PacketsInMemory(packets[1..]);
    }
  }

  /** The parser's state after the four chunks. */
  function WrittenState(info: OpusInfo, frames: nat): CafState {
    AfterPakt(TakeCookie(AfterDesc(info, frames), info.opusHead), info, frames).(audioData := Flatten(info.packets))
  }

  /** The packet table and the audio bytes give back the packet list. */
  lemma PacketsThroughCaf(info: OpusInfo, frames: nat)
    requires FitsMemory(info) && 0 < frames
    ensures FinishCaf(WrittenState(info, frames)) == Parsed(Assemble(WrittenState(info, frames), info.packets))
  {
    PacketsInMemory(info.packets);
    TableRoundTrip(info.packets);
    var audio := Flatten(info.packets);
    assert audio[0..] == audio;
    ConcatAt(info.packets, audio, 0);
  }

  lemma ParseWritten(info: OpusInfo)
    requires info.packets != [] && FitsMemory(info)
    ensures ParseCaf(CafFile(info)) == Parsed(Assemble(WrittenState(info, Frames(info)), info.packets))
  {
    var frames := Frames(info);
    var header, chunks := FileHeader(), CafChunks(info, frames);
    assert (header + chunks)[8..] == chunks && (header + chunks)[..4] == FileType();
    ReadWrittenChunks(info, frames);
    PacketsThroughCaf(info, frames);
  }

  /** PCM frames in the whole packet list, as the writers estimate them. */
  function TotalFrames(info: OpusInfo): (n: nat)
    requires info.packets != []
    ensures n > 0
  {
    Times(|info.packets|, Frames(info))
  }

  // ---- What comes back -------------------------------------------------------------

  /** A head the parser takes over from the magic cookie. */
  predicate IsCookie(head: packet) {
    |head| >= 12 && head[..8] == OpusHeadMagic()
  }

  /** The head's channel count wins; without one the description's does, and none means mono. */
  function CafChannels(info: OpusInfo): int {
    if IsCookie(info.opusHead) && info.opusHead[9] > 0 then info.opusHead[9]
    else if info.channels % TWO32 == 0 then 1
    else info.channels % TWO32
  }

  function CafPreSkip(head: packet): nat {
    if IsCookie(head) then HeadPreSkip(head) else 0
  }

  function CafHead(info: OpusInfo): packet {
    if IsCookie(info.opusHead) then info.opusHead else BuildOpusHead(CafChannels(info), 0)
  }

  /** End position through valid frames and priming frames, in 64-bit arithmetic. */
  function CafEnd(granulePos: int64, preSkip: int64, total: nat): (g: int64) {
    var v := Wrap64(granulePos - preSkip);
    var valid := if v <= 0 then Wrap64(total) else v;
    var end := Wrap64(valid + Signed32(preSkip % TWO32));
    if end <= 0 then Wrap64(total) else end
  }

  function ThroughCaf(info: OpusInfo): OpusInfo
    requires info.packets != []
  {
    OpusInfo(CafChannels(info), CafPreSkip(info.opusHead), CafHead(info), info.packets,
             CafEnd(info.granulePos, info.preSkip, TotalFrames(info)))
  }

  lemma WrittenFields(info: OpusInfo, frames: nat)
    ensures var st := WrittenState(info, frames);
      && st.opusHead == (if IsCookie(info.opusHead) then Some(info.opusHead) else None)
      && st.preSkip == CafPreSkip(info.opusHead) && st.framesPerPacket == frames
      && (if st.channels == 0 then 1 else st.channels) == CafChannels(info)
      && st.validFrames == ValidFrames(info, frames) && st.primingFrames == Signed32(info.preSkip % TWO32)
  {}

  lemma AssembleFields(st: CafState, info: OpusInfo, frames: nat)
    requires frames > 0 && st.framesPerPacket == frames
    requires st.opusHead == if IsCookie(info.opusHead) then Some(info.opusHead) else None
    requires st.preSkip == CafPreSkip(info.opusHead)
    requires (if st.channels == 0 then 1 else st.channels) == CafChannels(info)
    requires st.validFrames == ValidFrames(info, frames) && st.primingFrames == Signed32(info.preSkip % TWO32)
    ensures Assemble(st, info.packets)
         == OpusInfo(CafChannels(info), CafPreSkip(info.opusHead), CafHead(info), info.packets,
                     CafEnd(info.granulePos, info.preSkip, Times(|info.packets|, frames)))
  {
    assert !IsCookie(info.opusHead) ==> st.preSkip == 0;
  }

  /** Writing then parsing CAF, for every stream: the packets, and what becomes of everything else. */
  lemma CafRoundTrip(info: OpusInfo)
    requires info.packets != [] && FitsMemory(info)
    ensures ParseCaf(CafFile(info)) == Parsed(ThroughCaf(info))
  {
    ParseWritten(info);
    WrittenFields(info, Frames(info));
    AssembleFields(WrittenState(info, Frames(info)), info, Frames(info));
  }

  /** The original end position, or the packets' length past the pre-skip, unless that underflows. */
  function CafGranule(granulePos: int64, preSkip: nat, total: nat): int {
    if granulePos > preSkip then granulePos
    else if granulePos - preSkip >= -TWO63 then preSkip + total
    else total
  }

  lemma CafEndIs(granulePos: int64, preSkip: nat, total: nat)
    requires preSkip < 0x1_0000 && 0 < total && 0x1_0000 + total < TWO63
    ensures CafEnd(granulePos, preSkip, total) == CafGranule(granulePos, preSkip, total)
    ensures CafEnd(granulePos, preSkip, total) == granulePos <==> granulePos > preSkip
  {}

  lemma BuiltHeadIsCookie(channels: int, preSkip: int)
    ensures IsCookie(BuildOpusHead(channels, preSkip))
  {
    var head := BuildOpusHead(channels, preSkip);
    assert head[..8] == OpusHeadMagic();
  }

  /** The identification header of section 5.1 of RFC 7845, for 48 kHz, no gain and one stream. */
  lemma BuiltHeadFields(channels: int, preSkip: int)
    ensures var head := BuildOpusHead(channels, preSkip);
      && |head| == 19 && head[..8] == Ascii("OpusHead") && head[8] == 1
      && head[9] == channels % 256 && HeadPreSkip(head) == preSkip % 0x1_0000
      && FromLittleEndian(head[12..16]) == 48000 && FromLittleEndian(head[16..18]) == 0 && head[18] == 0
  {
    assert OpusHeadMagic() == Ascii("OpusHead");
    HeadParts(OpusHeadMagic(), 1, channels % 256, LittleEndian(preSkip % 0x1_0000, 2), LittleEndian(48000, 4));
    WordSizes();
    LittleEndianRoundTrip(preSkip % 0x1_0000, 2);
    LittleEndianRoundTrip(48000, 4);
    assert FromLittleEndian([0]) == 0;
  }

  lemma HeadParts(magic: seq<byte>, version: byte, channels: byte, skip: seq<byte>, rate: seq<byte>)
    requires |magic| == 8 && |skip| == 2 && |rate| == 4
    ensures var head := magic + [version, channels] + skip + rate + [0, 0, 0];
      && head[..8] == magic && head[8] == version && head[9] == channels
      && head[10..12] == skip && head[12..16] == rate && head[16..18] == [0, 0] && head[18] == 0
  {}

  /** The head is a cookie that gives the stream's pre-skip and, if it gives one, its channel count. */
  predicate Described(info: OpusInfo) {
    && IsCookie(info.opusHead) && info.preSkip == HeadPreSkip(info.opusHead)
    && if info.opusHead[9] > 0 then info.channels == info.opusHead[9] else 0 < info.channels < TWO32
  }

  lemma ThroughExact(info: OpusInfo)
    requires info.packets != [] && 0x1_0000 + TotalFrames(info) < TWO63
    ensures ThroughCaf(info) == info <==> Described(info) && info.granulePos > info.preSkip
  {
    BuiltHeadIsCookie(CafChannels(info), 0);
    if Described(info) {
      CafEndIs(info.granulePos, info.preSkip, TotalFrames(info));
    } else if IsCookie(info.opusHead) && info.preSkip == CafPreSkip(info.opusHead) {
      assert CafChannels(info) != info.channels;
    }
  }

  /** Exactly when a stream survives the CAF writer and parser unchanged. */
  lemma CafRoundTripExact(info: OpusInfo)
    requires info.packets != [] && FitsMemory(info) && 0x1_0000 + TotalFrames(info) < TWO63
    ensures ParseCaf(CafFile(info)) == Parsed(info) <==> Described(info) && info.granulePos > info.preSkip
  {
    CafRoundTrip(info);
    ThroughExact(info);
  }

  /** The head describes the stream, as it does for everything the Ogg parser returns. */
  ghost predicate MatchesHead(info: OpusInfo) {
    && IsOpusHead(info.opusHead)
    && info.channels == info.opusHead[9]
    && info.preSkip == HeadPreSkip(info.opusHead)
  }

  ghost predicate CafReady(info: OpusInfo) {
    && info.packets != [] && FitsMemory(info) && MatchesHead(info)
    && 0x1_0000 + TotalFrames(info) < TWO63
  }

  /** A stream with a describing head keeps it, its pre-skip and its packets, and gains a channel if it had none. */
  lemma CafRoundTripMatching(info: OpusInfo)
    requires CafReady(info)
    ensures ThroughCaf(info) == info.(
      channels := if info.channels == 0 then 1 else info.channels,
      granulePos := CafGranule(info.granulePos, info.preSkip, TotalFrames(info)))
    ensures ThroughCaf(info).granulePos == info.granulePos <==> info.granulePos > info.preSkip
  {
    CafEndIs(info.granulePos, info.preSkip, TotalFrames(info));
  }

  /** Any described stream that ends at its pre-skip comes back a whole stream longer. */
  lemma EndAtPreSkip(info: OpusInfo)
    requires CafReady(info) && info.channels > 0 && info.granulePos == info.preSkip
    ensures ParseCaf(CafFile(info)) == Parsed(info.(granulePos := info.preSkip + TotalFrames(info)))
  {
    CafRoundTrip(info);
    ThroughAtPreSkip(info);
  }

  lemma ThroughAtPreSkip(info: OpusInfo)
    requires CafReady(info) && info.channels > 0 && info.granulePos == info.preSkip
    ensures ThroughCaf(info) == info.(granulePos := info.preSkip + TotalFrames(info))
  {
    CafRoundTripMatching(info);
  }

  function TinyStream(): OpusInfo {
    OpusInfo(1, 312, BuildOpusHead(1, 312), [[0xF8]], 312)
  }

  /** One 20 ms packet that ends at its pre-skip: the CAF pair moves the end by a whole packet. */
  lemma EndAtPreSkipMoves()
    ensures ParseCaf(CafFile(TinyStream())) == Parsed(TinyStream().(granulePos := 312 + 960))
  {
    TinyIsReady();
    EndAtPreSkip(TinyStream());
  }

  lemma TinyIsReady()
    ensures CafReady(TinyStream()) && TotalFrames(TinyStream()) == 960
  {
    BuiltHead312();
    TinyTable();
    assert Frames(TinyStream()) == 960;
  }

  lemma TinyTable()
    ensures |VlqTable([[0xF8]])| == 1 && Flatten<byte>([[0xF8]]) == [0xF8]
  {
    assert [[0xF8]][1..] == [];
    assert VlqHigh(0) == [];
  }

  lemma BuiltHead312()
    ensures var head := BuildOpusHead(1, 312);
      IsCookie(head) && |head| == 19 && head[9] == 1 && HeadPreSkip(head) == 312
  {
    var head := BuildOpusHead(1, 312);
    BuiltHeadIsCookie(1, 312);
    WordSizes();
    LittleEndianRoundTrip(312, 2);
    assert head[10..12] == LittleEndian(312, 2);
  }
}
