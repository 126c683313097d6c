/**
  CAF files the bridge did not write: foreign chunks, long descriptions, audio that runs to
  the end of the file, packets of one size, tables with frame counts, a missing cookie, and
  chunks cut short.
 */
module CafVariants {
  import opened Bytes
  import opened Collections
  import opened OpusToc
  import opened CafTable
  import opened OggOpus
  import opened CafOpus

  // ---- Single chunks ---------------------------------------------------------------------

  /** A chunk header with any declared size, followed by the rest of the file. */
  function Declared(kind: seq<byte>, size: int64, tail: seq<byte>): seq<byte> {
    kind + BigEndian(Unsigned64(size), 8) + tail
  }

  predicate Foreign(kind: seq<byte>) {
    |kind| == 4 && kind != DescType() && kind != MagcType() && kind != PaktType() && kind != DataType()
  }

  /** The four-byte names spell what they say. */
  lemma ChunkNames()
    ensures DescType() == Ascii("desc") && MagcType() == Ascii("magc")
    ensures PaktType() == Ascii("pakt") && DataType() == Ascii("data")
    ensures OpusFormat() == Ascii("opus") && FileType() == Ascii("caff") && OpusHeadMagic() == Ascii("OpusHead")
  {}

  lemma DeclaredShape(kind: seq<byte>, size: int64, tail: seq<byte>)
    requires |kind| == 4
    ensures var data := Declared(kind, size, tail);
      |data| >= 12 && data[..4] == kind && Int64(data[4..12]) == size && data[12..] == tail
  {
    ThreeParts(kind, BigEndian(Unsigned64(size), 8), tail, []);
    assert Declared(kind, size, tail) + [] == Declared(kind, size, tail) && tail + [] == tail;
    Int64Field(size, Unsigned64(size));
  }

  /** A foreign chunk is as if it were not there. */
  lemma ForeignChunkSkipped(kind: seq<byte>, body: seq<byte>, rest: seq<byte>, st: CafState)
    requires Foreign(kind) && |body| < TWO63
    ensures ReadChunks(ChunkBytes(kind, body) + rest, st) == ReadChunks(rest, st)
  {
    assert body == [] ==> body + rest == rest;
    assert (body + rest)[|body|..] == rest;
    NextChunk(st, kind, body, rest, st);
  }

  /** One that claims more than there is ends the file; a size that is not positive claims nothing. */
  lemma ForeignSizes(kind: seq<byte>, size: int64, tail: seq<byte>, st: CafState)
    requires Foreign(kind)
    ensures size >= |tail| ==> ReadChunks(Declared(kind, size, tail), st) == Parsed(st)
    ensures size <= 0 ==> ReadChunks(Declared(kind, size, tail), st) == ReadChunks(tail, st)
  {
    DeclaredShape(kind, size, tail);
  }

  /** Bytes past the 32 of a description change nothing. */
  lemma LongDescription(desc: seq<byte>, extra: seq<byte>, rest: seq<byte>, st: CafState)
    requires |desc| == 32 && 32 + |extra| < TWO63
    ensures ReadChunks(ChunkBytes(DescType(), desc + extra) + rest, st)
         == ReadChunks(ChunkBytes(DescType(), desc) + rest, st)
  {
    ChunkShape(DescType(), desc + extra, rest);
    ChunkShape(DescType(), desc, rest);
    DescriptionEnds(desc, extra, rest, st);
  }

  lemma DescriptionEnds(desc: seq<byte>, extra: seq<byte>, rest: seq<byte>, st: CafState)
    requires |desc| == 32
    ensures DescChunk(st, 32 + |extra|, (desc + extra) + rest) == DescChunk(st, 32, desc + rest)
  {
    var long, short := (desc + extra) + rest, desc + rest;
    assert long[8..12] == desc[8..12] == short[8..12];
    assert long[16..20] == desc[16..20] == short[16..20];
    assert long[20..24] == desc[20..24] == short[20..24];
    assert long[24..28] == desc[24..28] == short[24..28];
    assert long[32..] == extra + rest && short[32..] == rest;
    assert extra == [] ==> extra + rest == rest;
    assert (extra + rest)[|extra|..] == rest;
  }

  /** Chunks of a known kind that end too soon, are too small or of another format, or have a negative size. */
  lemma BadChunks(size: int64, tail: seq<byte>, st: CafState)
    ensures |tail| < 32 || size < 32 || tail[8..12] != OpusFormat() ==>
              ReadChunks(Declared(DescType(), size, tail), st) == Rejected
    ensures |tail| < size || size < 24 ==> ReadChunks(Declared(PaktType(), size, tail), st) == Rejected
    ensures |tail| < size ==> ReadChunks(Declared(MagcType(), size, tail), st) == Rejected
    ensures |tail| < size ==> ReadChunks(Declared(DataType(), size, tail), st) == Rejected
    ensures size < 0 ==> ReadChunks(Declared(MagcType(), size, tail), st) == Panics
    ensures size < -1 ==> ReadChunks(Declared(DataType(), size, tail), st) == Panics
  {
    DeclaredShape(DescType(), size, tail);
    DeclaredShape(PaktType(), size, tail);
    DeclaredShape(MagcType(), size, tail);
    DeclaredShape(DataType(), size, tail);
  }

  // ---- Packet tables -----------------------------------------------------------------------

  /** One variable-length quantity, in any number of bytes. */
  predicate IsQuantity(s: seq<byte>) {
    s != [] && s[|s| - 1] < 128 && forall i :: 0 <= i < |s| - 1 ==> s[i] >= 128
  }

  lemma {:induction false} SkipQuantity(s: seq<byte>, rest: seq<byte>)
    requires IsQuantity(s)
    ensures SkipVlq(s + rest) == rest
  {
    assert (s + rest)[1..] == s[1..] + rest;
    if |s| == 1 {
      assert s[1..] + rest == rest;
    } else {
      SkipQuantity(s[1..], rest);
    }
  }

  /** A table in which every size is followed by a frame count. */
  function CountedTable(packets: seq<packet>, counts: seq<seq<byte>>): seq<byte>
    requires |counts| == |packets|
  {
    if packets == [] then [] else Vlq(|packets[0]|) + (counts[0] + CountedTable(packets[1..], counts[1..]))
  }

  ghost predicate Counts(counts: seq<seq<byte>>, packets: seq<packet>) {
    |counts| == |packets| && forall c :: c in counts ==> IsQuantity(c)
  }

  lemma DecodeCounted(table: seq<byte>, size: int64, count: seq<byte>, rest: seq<byte>, n: nat)
    requires size >= 0 && n > 0 && table == Vlq(size) + (count + rest) && IsQuantity(count)
    ensures DecodeSizes(table, n, true) == [size] + DecodeSizes(rest, n - 1, true)
  {
    VlqSelfDelimiting(size, count + rest);
    SkipQuantity(count, rest);
  }

  lemma {:induction false} CountsAreSkipped(packets: seq<packet>, counts: seq<seq<byte>>)
    requires Counts(counts, packets) && forall p :: p in packets ==> |p| < TWO63
    ensures DecodeSizes(CountedTable(packets, counts), |packets|, true) == Lengths(packets)
  {
    if packets != [] {
      var table, rest := CountedTable(packets, counts), CountedTable(packets[1..], counts[1..]);
      assert packets[0] in packets && counts[0] in counts;
      DecodeCounted(table, |packets[0]|, counts[0], rest, |packets|);
      CountsAreSkipped(packets[1..], counts[1..]);
      LengthsCons(packets);
    }
  }

  lemma LengthsCons(packets: seq<packet>)
    requires packets != []
    ensures Lengths(packets) == [|packets[0]|] + Lengths(packets[1..])
  {}

  // ---- Cutting the audio -----------------------------------------------------------------------

  /** The packets are cut off the front of the audio one after the other, as long as they fit. */
  ghost predicate CutsAt(audio: seq<byte>, sizes: seq<int>, packets: seq<packet>) {
    && |packets| <= |sizes| && (forall i :: 0 <= i < |packets| ==> |packets[i]| == sizes[i])
    && Flatten(packets) <= audio
    && (|packets| < |sizes| ==> |Flatten(packets)| + sizes[|packets|] > |audio|)
  }

  /** One more packet in front. */
  lemma CutsMore(audio: seq<byte>, sizes: seq<int>, packets: seq<packet>, p: packet, rest: seq<byte>)
    requires sizes != [] && |p| == sizes[0] && audio == p + rest && CutsAt(rest, sizes[1..], packets)
    ensures CutsAt(audio, sizes, [p] + packets)
  {
    var all := [p] + packets;
    assert all[1..] == packets && Flatten(all) == p + Flatten(packets);
    forall i | 0 <= i < |all|
      ensures |all[i]| == sizes[i]
    {
      if i > 0 {
        assert |packets[i - 1]| == sizes[1..][i - 1];
      }
    }
  }

  lemma NothingFits(audio: seq<byte>, sizes: seq<int>)
    requires sizes != [] ==> sizes[0] > |audio|
    ensures CutsAt(audio, sizes, [])
  {}

  lemma SplitStep(audio: seq<byte>, offset: nat, sizes: seq<int>)
    requires sizes != [] && offset <= |audio| < TWO63 && 0 <= sizes[0] && |audio| + sizes[0] < TWO63
    ensures offset + sizes[0] > |audio| ==> Split(audio, offset, sizes) == Parsed([])
    ensures offset + sizes[0] <= |audio| && Split(audio, offset + sizes[0], sizes[1..]).Parsed? ==>
      Split(audio, offset, sizes)
      == Parsed([audio[offset..offset + sizes[0]]] + Split(audio, offset + sizes[0], sizes[1..]).value)
  {}

  /** Sizes that run past the end keep the packets before them; the audio may be cut short. */
  lemma {:induction false} SplitCuts(audio: seq<byte>, offset: nat, sizes: seq<int>)
    requires offset <= |audio| < TWO63 && forall s :: s in sizes ==> 0 <= s && |audio| + s < TWO63
    ensures Split(audio, offset, sizes).Parsed?
    ensures CutsAt(audio[offset..], sizes, Split(audio, offset, sizes).value)
    decreases |sizes|
  {
    if sizes == [] {
      NothingFits(audio[offset..], sizes);
    } else {
      assert sizes[0] in sizes && forall s :: s in sizes[1..] ==> s in sizes;
      SplitStep(audio, offset, sizes);
      var end := offset + sizes[0];
      if end > |audio| {
        NothingFits(audio[offset..], sizes);
      } else {
        SplitCuts(audio, end, sizes[1..]);
        assert audio[offset..] == audio[offset..end] + audio[end..];
        CutsMore(audio[offset..], sizes, Split(audio, end, sizes[1..]).value, audio[offset..end], audio[end..]);
      }
    }
  }

  // ---- Whole files ---------------------------------------------------------------------------

  /** What a CAF writer may choose: the description's fields, the packet table's, and a cookie. */
  datatype Writer = Writer(
    bytesPerPacket: nat, framesPerPacket: nat, channels: nat, cookie: Option<seq<byte>>,
    valid: int64, priming: int, table: seq<byte>)

  /** What a reader must not notice: version, padding, foreign chunks, edit count, and an open-ended audio chunk. */
  datatype Layout = Layout(
    version: seq<byte>, extra: seq<byte>, gaps: nat -> seq<ForeignChunk>, edits: seq<byte>, openEnded: bool)

  datatype ForeignChunk = ForeignChunk(kind: seq<byte>, body: seq<byte>)

  predicate Passable(gap: seq<ForeignChunk>) {
    forall f :: f in gap ==> Foreign(f.kind) && |f.body| < TWO63
  }

  function Gap(chunks: seq<ForeignChunk>, rest: seq<byte>): seq<byte> {
    if chunks == [] then rest else ChunkBytes(chunks[0].kind, chunks[0].body) + Gap(chunks[1..], rest)
  }

  lemma {:induction false} GapSkipped(chunks: seq<ForeignChunk>, rest: seq<byte>, st: CafState)
    requires Passable(chunks)
    ensures ReadChunks(Gap(chunks, rest), st) == ReadChunks(rest, st)
    decreases chunks
  {
    if chunks != [] {
      assert chunks[0] in chunks;
      ForeignChunkSkipped(chunks[0].kind, chunks[0].body, Gap(chunks[1..], rest), st);
      GapSkipped(chunks[1..], rest, st);
    }
  }

  function Description(w: Writer): (d: seq<byte>)
    ensures |d| == 32
  {
    (BigEndian(SAMPLE_RATE_BITS, 8) + OpusFormat() + BigEndian(0, 4))
    + BigEndian(w.bytesPerPacket, 4) + BigEndian(w.framesPerPacket, 4) + BigEndian(w.channels, 4) + BigEndian(0, 4)
  }

  function TableBody(w: Writer, packets: seq<packet>): seq<byte> {
    (BigEndian(|packets|, 8) + BigEndian(Unsigned64(w.valid), 8) + BigEndian(w.priming % TWO32, 4) + BigEndian(0, 4))
    + w.table
  }

  function AudioPart(l: Layout, audio: seq<byte>): seq<byte> {
    if l.openEnded then Declared(DataType(), -1, l.edits + audio)
    else ChunkBytes(DataType(), l.edits + audio) + Gap(l.gaps(4), [])
  }

  function TablePart(w: Writer, l: Layout, packets: seq<packet>): seq<byte> {
    ChunkBytes(PaktType(), TableBody(w, packets)) + Gap(l.gaps(3), AudioPart(l, Flatten(packets)))
  }

  function CookiePart(w: Writer, l: Layout, packets: seq<packet>): seq<byte> {
    var rest := Gap(l.gaps(2), TablePart(w, l, packets));
    if w.cookie.Some? then ChunkBytes(MagcType(), w.cookie.value) + rest else rest
  }

  function Chunks(w: Writer, l: Layout, packets: seq<packet>): seq<byte> {
    Gap(l.gaps(0), ChunkBytes(DescType(), Description(w) + l.extra) + Gap(l.gaps(1), CookiePart(w, l, packets)))
  }

  /** A CAF file by any writer in any layout. */
  function AnyFile(w: Writer, l: Layout, packets: seq<packet>): seq<byte> {
    FileType() + l.version + Chunks(w, l, packets)
  }

  /** The packet table tells the sizes: none needed, each with a frame count, or each alone. */
  ghost predicate Tells(w: Writer, packets: seq<packet>) {
    if w.bytesPerPacket > 0 then forall p :: p in packets ==> |p| == w.bytesPerPacket
    else if w.framesPerPacket == 0 then
      exists counts :: Counts(counts, packets) && w.table == CountedTable(packets, counts)
    else w.table == VlqTable(packets)
  }

  ghost predicate InRange(w: Writer, packets: seq<packet>) {
    && w.bytesPerPacket < TWO32 && w.framesPerPacket < TWO32 && w.channels < TWO32
    && -TWO31 <= w.priming < TWO31
    && |packets| < TWO63 && 4 + |Flatten(packets)| < TWO63 && 24 + |w.table| < TWO63
    && (w.cookie.Some? ==> |w.cookie.value| < TWO63)
  }

  ghost predicate WellLaid(l: Layout) {
    && |l.version| == 4 && |l.edits| == 4 && 32 + |l.extra| < TWO63
    && forall i :: 0 <= i < 5 ==> Passable(l.gaps(i))
  }

  function Described(w: Writer): CafState {
    InitialState().(bytesPerPacket := w.bytesPerPacket, framesPerPacket := w.framesPerPacket, channels := w.channels)
  }

  function WithTable(st: CafState, w: Writer, packets: seq<packet>): CafState
    requires |packets| < TWO63
  {
    st.(numPackets := |packets|, validFrames := w.valid, primingFrames := w.priming, vlqData := Some(w.table))
  }

  lemma AudioRead(l: Layout, audio: seq<byte>, st: CafState)
    requires WellLaid(l) && 4 + |audio| < TWO63
    ensures ReadChunks(AudioPart(l, audio), st) == Parsed(st.(audioData := audio))
  {
    var body, st' := l.edits + audio, st.(audioData := audio);
    assert body[4..] == audio;
    if l.openEnded {
      DeclaredShape(DataType(), -1, body);
    } else {
      var tail := Gap(l.gaps(4), []);
      assert (body + tail)[..|body|] == body && (body + tail)[|body|..] == tail;
      NextChunk(st, DataType(), body, tail, st');
      GapSkipped(l.gaps(4), [], st');
    }
  }

  lemma TableStep(w: Writer, packets: seq<packet>, rest: seq<byte>, st: CafState)
    requires InRange(w, packets)
    ensures ReadChunk(st, PaktType(), |TableBody(w, packets)|, TableBody(w, packets) + rest)
         == Parsed(Chunk(WithTable(st, w, packets), rest))
  {
    SignBack(w.priming);
    PaktRaw(st, |packets|, w.valid, w.priming % TWO32, w.table, rest);
  }

  lemma SignBack(x: int)
    requires -TWO31 <= x < TWO31
    ensures Signed32(x % TWO32) == x
  {}

  lemma TableRead(w: Writer, l: Layout, packets: seq<packet>, st: CafState)
    requires WellLaid(l) && InRange(w, packets)
    ensures ReadChunks(TablePart(w, l, packets), st)
         == Parsed(WithTable(st, w, packets).(audioData := Flatten(packets)))
  {
    var rest, st' := Gap(l.gaps(3), AudioPart(l, Flatten(packets))), WithTable(st, w, packets);
    TableStep(w, packets, rest, st);
    NextChunk(st, PaktType(), TableBody(w, packets), rest, st');
    GapSkipped(l.gaps(3), AudioPart(l, Flatten(packets)), st');
    AudioRead(l, Flatten(packets), st');
  }

  function WithCookie(st: CafState, w: Writer): CafState {
    if w.cookie.Some? then TakeCookie(st, w.cookie.value) else st
  }

  lemma CookieRead(w: Writer, l: Layout, packets: seq<packet>, st: CafState)
    requires WellLaid(l) && InRange(w, packets)
    ensures ReadChunks(CookiePart(w, l, packets), st)
         == Parsed(WithTable(WithCookie(st, w), w, packets).(audioData := Flatten(packets)))
  {
    var rest := Gap(l.gaps(2), TablePart(w, l, packets));
    if w.cookie.Some? {
      MagcStep(st, w.cookie.value, rest);
      NextChunk(st, MagcType(), w.cookie.value, rest, WithCookie(st, w));
    }
    GapSkipped(l.gaps(2), TablePart(w, l, packets), WithCookie(st, w));
    TableRead(w, l, packets, WithCookie(st, w));
  }

  lemma DescriptionRead(w: Writer, rest: seq<byte>)
    requires w.bytesPerPacket < TWO32 && w.framesPerPacket < TWO32 && w.channels < TWO32
    ensures ReadChunks(ChunkBytes(DescType(), Description(w)) + rest, InitialState())
         == ReadChunks(rest, Described(w))
  {
    DescFields(BigEndian(SAMPLE_RATE_BITS, 8), OpusFormat(), BigEndian(0, 4), BigEndian(w.bytesPerPacket, 4),
               BigEndian(w.framesPerPacket, 4), BigEndian(w.channels, 4), BigEndian(0, 4), rest);
    Word32Field(w.bytesPerPacket);
    Word32Field(w.framesPerPacket);
    Word32Field(w.channels);
    NextChunk(InitialState(), DescType(), Description(w), rest, Described(w));
  }

  /** All chunks are read into the parser's fields, whatever the layout. */
  lemma ChunksRead(w: Writer, l: Layout, packets: seq<packet>)
    requires WellLaid(l) && InRange(w, packets)
    ensures ReadChunks(Chunks(w, l, packets), InitialState())
         == Parsed(WithTable(WithCookie(Described(w), w), w, packets).(audioData := Flatten(packets)))
  {
    var rest := Gap(l.gaps(1), CookiePart(w, l, packets));
    GapSkipped(l.gaps(0), ChunkBytes(DescType(), Description(w) + l.extra) + rest, InitialState());
    LongDescription(Description(w), l.extra, rest, InitialState());
    DescriptionRead(w, rest);
    GapSkipped(l.gaps(1), CookiePart(w, l, packets), Described(w));
    CookieRead(w, l, packets, Described(w));
  }

  lemma SizesTold(w: Writer, packets: seq<packet>, st: CafState)
    requires InRange(w, packets) && Tells(w, packets)
    requires st.bytesPerPacket == w.bytesPerPacket && st.framesPerPacket == w.framesPerPacket
    requires st.vlqData == Some(w.table) && st.numPackets == |packets|
    ensures PacketSizes(st) == Parsed(Lengths(packets))
  {
    PacketsInMemory(packets);
    if w.bytesPerPacket > 0 {
      assert seq(|packets|, i => w.bytesPerPacket) == Lengths(packets);
    } else if w.framesPerPacket == 0 {
      var counts :| Counts(counts, packets) && w.table == CountedTable(packets, counts);
      CountsAreSkipped(packets, counts);
    } else {
      TableRoundTrip(packets);
    }
  }

  /** Where the audio ends: after the valid and priming frames, or after all packets when they come to nothing. */
  function EndOf(valid: int64, priming: int, n: nat, frames: nat): int64 {
    var end := Wrap64(valid + priming);
    if end > 0 then end else Wrap64(Times(n, if frames > 0 then frames else 960))
  }

  /** The cookie is the head of an Opus stream. */
  predicate GivesHead(w: Writer) {
    w.cookie.Some? && |w.cookie.value| >= 12 && w.cookie.value[..8] == Ascii("OpusHead")
  }

  /** The cookie's channel count, else the description's, else one. */
  function ChannelsOf(w: Writer): int {
    if GivesHead(w) && w.cookie.value[9] > 0 then w.cookie.value[9]
    else if w.channels > 0 then w.channels
    else 1
  }

  /** What such a file means. */
  function Meaning(w: Writer, packets: seq<packet>): OpusInfo
    requires w.channels < TWO32
  {
    OpusInfo(ChannelsOf(w), if GivesHead(w) then HeadPreSkip(w.cookie.value) else 0,
             if GivesHead(w) then w.cookie.value else BuildOpusHead(ChannelsOf(w), 0), packets,
             EndOf(w.valid, w.priming, |packets|, w.framesPerPacket))
  }

  lemma Assembled(w: Writer, packets: seq<packet>, st: CafState)
    requires w.channels < TWO32 && st.framesPerPacket == w.framesPerPacket
    requires st.opusHead == if GivesHead(w) then w.cookie else None
    requires st.preSkip == if GivesHead(w) then HeadPreSkip(w.cookie.value) else 0
    requires (if st.channels == 0 then 1 else st.channels) == ChannelsOf(w)
    requires st.validFrames == w.valid && st.primingFrames == w.priming
    ensures Assemble(st, packets) == Meaning(w, packets)
  {}

  lemma FieldsRead(w: Writer, packets: seq<packet>)
    requires |packets| < TWO63
    ensures var st := WithTable(WithCookie(Described(w), w), w, packets).(audioData := Flatten(packets));
      && st.opusHead == (if GivesHead(w) then w.cookie else None)
      && st.preSkip == (if GivesHead(w) then HeadPreSkip(w.cookie.value) else 0)
      && (if st.channels == 0 then 1 else st.channels) == ChannelsOf(w)
  {
    ChunkNames();
  }

  lemma Finished(w: Writer, packets: seq<packet>, st: CafState)
    requires InRange(w, packets) && Tells(w, packets)
    requires st == WithTable(WithCookie(Described(w), w), w, packets).(audioData := Flatten(packets))
    ensures FinishCaf(st) == Parsed(Meaning(w, packets))
  {
    SizesTold(w, packets, st);
    var audio := Flatten(packets);
    assert audio[0..] == audio;
    ConcatAt(packets, audio, 0);
    FieldsRead(w, packets);
    Assembled(w, packets, st);
  }

  /**
    The parser reads every CAF Opus file whose table tells its packets' sizes: constant,
    with frame counts or without, with or without a cookie, whatever else the file carries.
   */
  lemma AnyFileParses(w: Writer, l: Layout, packets: seq<packet>)
    requires WellLaid(l) && InRange(w, packets) && Tells(w, packets)
    ensures ParseCaf(AnyFile(w, l, packets)) == Parsed(Meaning(w, packets))
  {
    var data := AnyFile(w, l, packets);
    assert data[..4] == FileType() && data[8..] == Chunks(w, l, packets);
    ChunksRead(w, l, packets);
    Finished(w, packets, WithTable(WithCookie(Described(w), w), w, packets).(audioData := Flatten(packets)));
  }

  /** Without a table and a constant size there is nothing to cut by. */
  lemma NoTableIsRejected(w: Writer, l: Layout, audio: seq<byte>)
    requires WellLaid(l) && 4 + |audio| < TWO63
    requires w.bytesPerPacket == 0 && w.framesPerPacket < TWO32 && w.channels < TWO32
    ensures ParseCaf(FileType() + l.version
                     + (ChunkBytes(DescType(), Description(w)) + Gap(l.gaps(1), AudioPart(l, audio)))) == Rejected
  {
    var rest := Gap(l.gaps(1), AudioPart(l, audio));
    var data := FileType() + l.version + (ChunkBytes(DescType(), Description(w)) + rest);
    assert data[..4] == FileType() && data[8..] == ChunkBytes(DescType(), Description(w)) + rest;
    DescriptionRead(w, rest);
    GapSkipped(l.gaps(1), AudioPart(l, audio), Described(w));
    AudioRead(l, audio, Described(w));
  }

  /** What is not a CAF file is an error, and so is a count of packets below zero a panic. */
  lemma OtherFailures(data: seq<byte>, st: CafState)
    ensures |data| < 8 || data[..4] != Ascii("caff") ==> ParseCaf(data) == Rejected
    ensures st.numPackets < 0 && (st.bytesPerPacket > 0 || st.vlqData.Some?) ==> FinishCaf(st) == Panics
  {
    ChunkNames();
  }

  // ---- The bridge's own files, padded --------------------------------------------------------

  /** The choices of writeCAFOpus. */
  function WriterOf(info: OpusInfo): Writer
    requires info.packets != []
  {
    Writer(0, Frames(info), info.channels % TWO32, Some(info.opusHead), ValidFrames(info, Frames(info)),
           Signed32(info.preSkip % TWO32), VlqTable(info.packets))
  }

  /** Version 1, no flags, no padding, an edit count of zero. */
  function Plain(): Layout {
    Layout([0, 1, 0, 0], [], i => [], [0, 0, 0, 0], false)
  }

  lemma SmallFields()
    ensures BigEndian(1, 2) + BigEndian(0, 2) == [0, 1, 0, 0] && BigEndian(0, 4) == [0, 0, 0, 0]
  {
    assert BigEndian(1, 1) == [1] && BigEndian(0, 1) == [0];
    assert BigEndian(0, 2) == [0, 0];
    assert BigEndian(0, 3) == [0, 0, 0];
  }

  lemma BodiesAreWritten(info: OpusInfo)
    requires info.packets != []
    ensures Description(WriterOf(info)) == DescBody(info, Frames(info))
    ensures TableBody(WriterOf(info), info.packets) == PaktBody(info, Frames(info))
    ensures BigEndian(0, 4) + Flatten(info.packets) == DataBody(info)
  {
    SignBackTwice(info.preSkip);
  }

  lemma SignBackTwice(x: int)
    ensures Signed32(x % TWO32) % TWO32 == x % TWO32
  {}

  /** Without padding the parts follow one another. */
  lemma PlainChunks(w: Writer, packets: seq<packet>, desc: seq<byte>, magc: seq<byte>, pakt: seq<byte>, data: seq<byte>)
    requires w.cookie.Some?
    requires desc == ChunkBytes(DescType(), Description(w)) && magc == ChunkBytes(MagcType(), w.cookie.value)
    requires pakt == ChunkBytes(PaktType(), TableBody(w, packets))
    requires data == ChunkBytes(DataType(), [0, 0, 0, 0] + Flatten(packets))
    ensures Chunks(w, Plain(), packets) == desc + (magc + (pakt + data))
  {
    assert AudioPart(Plain(), Flatten(packets)) == data + [] == data;
    assert TablePart(w, Plain(), packets) == pakt + data;
    assert CookiePart(w, Plain(), packets) == magc + (pakt + data);
    assert Description(w) + [] == Description(w);
  }

  lemma WrittenIsPlain(info: OpusInfo)
    requires info.packets != []
    ensures CafFile(info) == AnyFile(WriterOf(info), Plain(), info.packets)
  {
    SmallFields();
    BodiesAreWritten(info);
    PlainChunks(WriterOf(info), info.packets,
                ChunkBytes(DescType(), DescBody(info, Frames(info))), ChunkBytes(MagcType(), info.opusHead),
                ChunkBytes(PaktType(), PaktBody(info, Frames(info))), ChunkBytes(DataType(), DataBody(info)));
  }

  /** A written file may be padded with foreign chunks, and its description lengthened, without a reader noticing. */
  lemma PaddingIsInvisible(info: OpusInfo, l: Layout)
    requires info.packets != [] && FitsMemory(info) && WellLaid(l)
    ensures ParseCaf(AnyFile(WriterOf(info), l, info.packets)) == ParseCaf(CafFile(info))
    ensures ParseCaf(CafFile(info)) == Parsed(ThroughCaf(info))
  {
    WrittenIsPlain(info);
    AnyFileParses(WriterOf(info), l, info.packets);
    AnyFileParses(WriterOf(info), Plain(), info.packets);
    CafRoundTrip(info);
  }
}
