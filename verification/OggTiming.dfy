/**
  What the granules of a written Ogg stream say about time (section 4 of RFC 7845): how
  far the audio has come when a page ends, measured on the packets a reader has by then.
 */
module OggTiming {
  import opened Bytes
  import opened Collections
  import opened OggPages
  import opened OpusToc
  import opened Greedy
  import opened OggOpus

  /** Samples at 48 kHz in a list of packets. */
  function Duration(packets: seq<packet>): nat {
    if packets == [] then 0 else PacketFrames(packets[0]) + Duration(packets[1..])
  }

  ghost predicate Uniform(packets: seq<packet>) {
    forall p :: p in packets ==> PacketFrames(p) == PacketFrames(packets[0])
  }

  function Min(a: int, b: int): int {
    if a <= b then a else b
  }

  /** The audio packets a reader has once it has read page k. */
  function AudioUpTo(pages: seq<Page>, k: nat): seq<packet>
    requires k < |pages|
  {
    match ReadStream(EncodeStream(pages[..k + 1]))
    case Err => []
    case Ok(s) => if |s.packets| < 2 then [] else s.packets[2..]
  }

  lemma CappedIsMin(preSkip: int64, n: nat, total: nat, frames: nat, cap: int64)
    requires n <= total && 0 <= preSkip && preSkip + Times(total, frames) < TWO63
    ensures CappedGranule(preSkip, n, frames, cap) == Min(preSkip + Times(n, frames), cap)
  {
    MulMonotone(n, total, frames);
  }

  /** Reading the header pages and some audio pages gives the packets of those audio pages. */
  lemma ReadUpTo(info: OpusInfo, tags: packet, groups: seq<seq<packet>>, k: nat)
    requires info.packets != [] && 2 <= k < |groups| + 1
    requires Laceable(info.opusHead) && Laceable(tags)
    requires forall g :: g in groups ==> |Lacing(g)| <= MAX_SEGMENTS
    ensures AudioUpTo(RenderAll(StreamDrafts(info, tags, groups)), k) == Flatten(groups[..k - 1])
  {
    var before := DraftsBefore(info, tags, groups[..k - 1]);
    FirstDrafts(info, tags, groups, k);
    BeforeFits(info, tags, groups[..k - 1]);
    DraftBytes(before);
    ReadDrafts(before);
    DraftPacketsBefore(info, tags, groups[..k - 1]);
  }

  lemma BeforeFits(info: OpusInfo, tags: packet, groups: seq<seq<packet>>)
    requires info.packets != [] && Laceable(info.opusHead) && Laceable(tags)
    requires forall g :: g in groups ==> |Lacing(g)| <= MAX_SEGMENTS
    ensures forall d :: d in DraftsBefore(info, tags, groups) ==> DraftFits(d)
  {
    SingleGroup(info.opusHead);
    SingleGroup(tags);
  }

  lemma SameDraft(info: OpusInfo, tags: packet, groups: seq<seq<packet>>, k: nat, j: nat)
    requires info.packets != [] && 2 <= k < |groups| + 1 && j <= k
    ensures StreamDrafts(info, tags, groups)[j] == DraftsBefore(info, tags, groups[..k - 1])[j]
  {
    if j >= 2 {
      assert groups[..|groups| - 1][..j - 1] == groups[..k - 1][..j - 1];
    }
  }

  lemma RenderPrefix(drafts: seq<Draft>, start: seq<Draft>, n: nat)
    requires n <= |drafts| && drafts[..n] == start
    ensures RenderAll(drafts)[..n] == RenderAll(start)
  {
    forall j | 0 <= j < n
      ensures RenderAll(drafts)[j] == RenderAll(start)[j]
    {
      assert drafts[..n][j] == drafts[j];
    }
  }

  lemma FirstDrafts(info: OpusInfo, tags: packet, groups: seq<seq<packet>>, k: nat)
    requires info.packets != [] && 2 <= k < |groups| + 1
    ensures RenderAll(StreamDrafts(info, tags, groups))[..k + 1]
         == RenderAll(DraftsBefore(info, tags, groups[..k - 1]))
  {
    var drafts, start := StreamDrafts(info, tags, groups), DraftsBefore(info, tags, groups[..k - 1]);
    forall j | 0 <= j < k + 1
      ensures drafts[j] == start[j]
    {
      SameDraft(info, tags, groups, k, j);
    }
    RenderPrefix(drafts, start, k + 1);
  }

  /** The page's bytes carry the position of its end: so many packets past the pre-skip, up to the stream's end. */
  ghost predicate CarriesPosition(page: Page, preSkip: int64, done: nat, frames: nat, end: int64) {
    PageGranule(EncodePage(page)) == Min(preSkip + Times(done, frames), end)
  }

  lemma PositionInBytes(page: Page, preSkip: int64, done: nat, total: nat, frames: nat, end: int64)
    requires ValidPage(page) && page.granule == CappedGranule(preSkip, done, frames, end)
    requires done <= total && 0 <= preSkip && preSkip + Times(total, frames) < TWO63
    ensures CarriesPosition(page, preSkip, done, frames, end)
  {
    CappedIsMin(preSkip, done, total, frames, end);
    HeaderFields(page, []);
    assert EncodePage(page) + [] == EncodePage(page);
  }

  /** The packets read so far are some, but not all, and the page says where they end. */
  ghost predicate Positioned(info: OpusInfo, page: Page, done: seq<packet>)
    requires info.packets != []
  {
    && done != [] && done < info.packets
    && CarriesPosition(page, info.preSkip, |done|, Frames(info), info.granulePos)
  }

  lemma InnerPageCarries(info: OpusInfo, tags: packet, groups: seq<seq<packet>>, k: nat)
    requires LengthFits(info) && 2 <= k < |groups| + 1 && |Flatten(groups[..k - 1])| <= |info.packets|
    requires Laceable(info.opusHead) && Laceable(tags)
    requires forall g :: g in groups ==> |Lacing(g)| <= MAX_SEGMENTS
    ensures CarriesPosition(RenderAll(StreamDrafts(info, tags, groups))[k], info.preSkip, |Flatten(groups[..k - 1])|,
                            Frames(info), info.granulePos)
  {
    var drafts := StreamDrafts(info, tags, groups);
    StreamFits(info, tags, groups);
    RenderedPagesAreValid(drafts);
    assert RenderAll(drafts)[k] in RenderAll(drafts);
    DraftGranuleAt(info, tags, groups, k);
    PositionInBytes(RenderAll(drafts)[k], info.preSkip, |Flatten(groups[..k - 1])|, |info.packets|, Frames(info),
                    info.granulePos);
  }

  lemma SomeDone(groups: seq<seq<packet>>, m: nat)
    requires 0 < m < |groups| && forall g :: g in groups ==> g != []
    ensures Flatten(groups[..m]) != [] && Flatten(groups[..m]) < Flatten(groups)
  {
    assert groups == groups[..m] + groups[m..];
    FlattenAppend(groups[..m], groups[m..]);
    assert groups[..m][0] in groups && groups[m..][0] in groups;
  }

  lemma TwoPages(p: packet, q: packet, r: packet)
    requires Fits([p], q) && !Fits([p, q], r)
    ensures Pack([p, q, r], []) == [[p, q], [r]] && Flatten([[p, q], [r]][..1]) == [p, q]
  {
    assert [p, q, r][1..] == [q, r] && [q, r][1..] == [r] && [r][1..] == [];
    assert [] + [p] == [p] && [p] + [q] == [p, q];
    assert Group(Fits, [r], [p, q]) == [[p, q]] + Group(Fits, [], [r]);
    assert Group(Fits, [q, r], [p]) == Group(Fits, [r], [p, q]);
    assert Group(Fits, [p, q, r], []) == Group(Fits, [q, r], [p]);
    assert [[p, q], [r]][..1] == [[p, q]] && [[p, q]][1..] == [];
    assert Flatten([[p, q]]) == [p, q] + Flatten([[p, q]][1..]);
  }

  lemma TwoDurations(p: packet, q: packet)
    ensures Duration([p, q]) == PacketFrames(p) + PacketFrames(q)
  {
    assert [p, q][1..] == [q] && [q][1..] == [];
    assert Duration([q]) == PacketFrames(q) + Duration([]);
  }

  /** The packer's groups are the packets, none is empty, and each fits a page. */
  lemma PackedGroups(info: OpusInfo)
    requires Writable(info)
    ensures var groups := Pack(info.packets, []);
      && groups != [] && Flatten(groups) == info.packets && (forall g :: g in groups ==> g != [])
      && (forall g :: g in groups ==> |Lacing(g)| <= MAX_SEGMENTS)
      && DraftsOf(info) == StreamDrafts(info, OpusTags(), groups)
  {
    GroupPartitions(Fits, info.packets, []);
    assert [] + info.packets == info.packets;
    PackWithinLimits(info.packets, []);
  }

  /** The packets completed by an inner page, by the packer's groups. */
  lemma CompletedAt(info: OpusInfo, k: nat)
    requires Writable(info) && 2 <= k < |Pack(info.packets, [])| + 1
    ensures AudioUpTo(RenderAll(DraftsOf(info)), k) == Flatten(Pack(info.packets, [])[..k - 1])
  {
    PackedGroups(info);
    ReadUpTo(info, OpusTags(), Pack(info.packets, []), k);
  }

  lemma SomeCompleted(info: OpusInfo, k: nat)
    requires Writable(info) && 2 <= k < |Pack(info.packets, [])| + 1
    ensures Flatten(Pack(info.packets, [])[..k - 1]) != []
    ensures Flatten(Pack(info.packets, [])[..k - 1]) < info.packets
  {
    PackedGroups(info);
    SomeDone(Pack(info.packets, []), k - 1);
  }

  lemma PackedPageCarries(info: OpusInfo, k: nat)
    requires Writable(info) && LengthFits(info) && 2 <= k < |Pack(info.packets, [])| + 1
    ensures |DraftsOf(info)| == |Pack(info.packets, [])| + 2
    ensures CarriesPosition(RenderAll(DraftsOf(info))[k], info.preSkip, |Flatten(Pack(info.packets, [])[..k - 1])|,
                            Frames(info), info.granulePos)
  {
    PackedGroups(info);
    SomeCompleted(info, k);
    InnerPageCarries(info, OpusTags(), Pack(info.packets, []), k);
  }

  lemma PackedPage(info: OpusInfo, k: nat)
    requires Writable(info) && LengthFits(info) && 2 <= k < |DraftsOf(info)| - 1
    ensures Positioned(info, RenderAll(DraftsOf(info))[k], AudioUpTo(RenderAll(DraftsOf(info)), k))
  {
    CompletedAt(info, k);
    SomeCompleted(info, k);
    PackedPageCarries(info, k);
  }

  /** The pages of a written stream, as bytes and with where each inner page ends. */
  lemma PagePositions(info: OpusInfo)
    requires Writable(info) && LengthFits(info)
    ensures var pages := RenderAll(DraftsOf(info));
      && OggStream(info) == EncodeStream(pages)
      && forall k :: 2 <= k < |pages| - 1 ==> Positioned(info, pages[k], AudioUpTo(pages, k))
  {
    DraftBytes(DraftsOf(info));
    forall k | 2 <= k < |DraftsOf(info)| - 1
      ensures Positioned(info, RenderAll(DraftsOf(info))[k], AudioUpTo(RenderAll(DraftsOf(info)), k))
    {
      PackedPage(info, k);
    }
  }

  lemma {:induction false} UniformDuration(packets: seq<packet>, frames: nat)
    requires forall p :: p in packets ==> PacketFrames(p) == frames
    ensures Duration(packets) == Times(|packets|, frames)
  {
    if packets != [] {
      assert packets[0] in packets;
      UniformDuration(packets[1..], frames);
      OneMoreTime(|packets[1..]|, frames);
    }
  }

  lemma OneMoreTime(n: nat, frames: nat)
    ensures Times(n + 1, frames) == frames + Times(n, frames)
  {}

  /** The time at which the packets read so far end, and which a player would expect of the page. */
  function TimeAfter(info: OpusInfo, done: seq<packet>): int {
    Min(info.preSkip + Duration(done), info.granulePos)
  }

  /** The end of page k of a written stream, from its bytes. */
  function StampedEnd(info: OpusInfo, k: nat): int64
    requires info.packets != [] && k < |DraftsOf(info)|
  {
    PageGranule(EncodePage(RenderAll(DraftsOf(info))[k]))
  }

  /** The packets completed by page k of a written stream. */
  function Completed(info: OpusInfo, k: nat): seq<packet>
    requires info.packets != [] && k < |DraftsOf(info)|
  {
    AudioUpTo(RenderAll(DraftsOf(info)), k)
  }

  lemma StampedIs(info: OpusInfo, k: nat)
    requires Writable(info) && LengthFits(info) && 2 <= k < |DraftsOf(info)| - 1
    ensures Completed(info, k) < info.packets
    ensures StampedEnd(info, k) == Min(info.preSkip + Times(|Completed(info, k)|, Frames(info)), info.granulePos)
  {
    PackedPage(info, k);
  }

  lemma EqualUpTo(a: int, b: int, end: int)
    ensures Min(a, end) == Min(b, end) <==> a == b || (a >= end && b >= end)
  {}

  /**
    An inner page keeps time exactly when the packets completed by then last as long as
    so many first packets, or the stream's end is reached either way.
   */
  lemma PageKeepsTimeExactly(info: OpusInfo, k: nat)
    requires Writable(info) && LengthFits(info) && 2 <= k < |DraftsOf(info)| - 1
    ensures StampedEnd(info, k) == TimeAfter(info, Completed(info, k)) <==>
      var actual, counted := Duration(Completed(info, k)), Times(|Completed(info, k)|, Frames(info));
      actual == counted || (info.preSkip + actual >= info.granulePos && info.preSkip + counted >= info.granulePos)
  {
    StampedIs(info, k);
    EqualUpTo(info.preSkip + Duration(Completed(info, k)),
              info.preSkip + Times(|Completed(info, k)|, Frames(info)), info.granulePos);
  }

  /**
    When all packets last as long as the first, every inner page carries the pre-skip and
    the duration of all packets completed by then, up to the stream's end.
   */
  lemma UniformPagesKeepTime(info: OpusInfo, k: nat)
    requires Writable(info) && LengthFits(info) && Uniform(info.packets)
    requires 2 <= k < |DraftsOf(info)| - 1
    ensures StampedEnd(info, k) == TimeAfter(info, Completed(info, k))
  {
    PageKeepsTimeExactly(info, k);
    var done := Completed(info, k);
    StampedIs(info, k);
    forall p | p in done
      ensures p in info.packets
    {}
    UniformDuration(done, Frames(info));
  }

  /**
    A family that does not keep time: two packets of different length on one page, a third
    that no longer fits it, and an end beyond them all.
   */
  lemma MixedDurationsDrift(info: OpusInfo, p: packet, q: packet, r: packet)
    requires Writable(info) && LengthFits(info) && info.packets == [p, q, r]
    requires Fits([p], q) && !Fits([p, q], r) && PacketFrames(p) != PacketFrames(q)
    requires info.granulePos > info.preSkip + Times(2, PacketFrames(p))
    requires info.granulePos > info.preSkip + PacketFrames(p) + PacketFrames(q)
    ensures |DraftsOf(info)| == 4 && Completed(info, 2) == [p, q]
    ensures StampedEnd(info, 2) != TimeAfter(info, [p, q])
  {
    TwoPages(p, q, r);
    CompletedAt(info, 2);
    PageKeepsTimeExactly(info, 2);
    TwoDurations(p, q);
    OneMoreTime(1, PacketFrames(p));
    OneMoreTime(0, PacketFrames(p));
  }

  /** A 10 ms packet, a 20 ms packet and a packet that fills a page. */
  function MixedStream(): OpusInfo {
    OpusInfo(1, 312, [], [[0x00], [0x08], seq(48000, i => 0)], 10000)
  }

  lemma MixedFits()
    ensures var p, q, r := MixedStream().packets[0], MixedStream().packets[1], MixedStream().packets[2];
      MixedStream().packets == [p, q, r] && Fits([p], q) && !Fits([p, q], r)
  {
    var p, q := MixedStream().packets[0], MixedStream().packets[1];
    SingleGroup(p);
    GroupGrows([p], q);
    assert [p] + [q] == [p, q];
  }

  lemma MixedLengths()
    ensures PacketFrames([0x00]) == 480 && PacketFrames([0x08]) == 960
    ensures Writable(MixedStream()) && LengthFits(MixedStream())
  {}

  lemma MixedWitness()
    ensures var info := MixedStream();
      && Writable(info) && LengthFits(info) && |DraftsOf(info)| == 4
      && StampedEnd(info, 2) != TimeAfter(info, Completed(info, 2))
  {
    var info := MixedStream();
    MixedFits();
    MixedLengths();
    MixedDurationsDrift(info, info.packets[0], info.packets[1], info.packets[2]);
  }
}
