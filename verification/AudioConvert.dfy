/**
  The two conversions the bridge applies to voice messages, and the law that ties
  them: a stream sent one way and back is the same stream.
 */
module AudioConvert {
  import opened Bytes
  import opened Collections
  import opened OggPages
  import opened OggOpus
  import opened CafOpus

  /** convertAudioForIMessage: Ogg Opus becomes CAF Opus, anything else passes through. */
  function ToIMessage(data: seq<byte>, isOgg: bool): seq<byte> {
    if !isOgg then data
    else
      match ParseOgg(data)
      case Err => data
      case Ok(info) => CafFile(info)
  }

  /** convertAudioForMatrix: CAF Opus becomes Ogg Opus; None when parsing panics. */
  function ToMatrix(data: seq<byte>, isCaf: bool): Option<(seq<byte>, int)> {
    if !isCaf then Some((data, 0))
    else
      match ParseCaf(data)
      case Rejected => Some((data, 0))
      case Panics => None
      case Parsed(info) =>
        if info.packets == [] then None
        else Some((OggStream(info), DurationMs(info.granulePos)))
  }

  /** Go's truncating division of a wrapped product. */
  function DurationMs(granule: int64): int {
    var scaled := Wrap64(granule * 1000);
    if scaled >= 0 then scaled / 48000 else -(-scaled / 48000)
  }

  /** The duration is the end position at 48 kHz in whole milliseconds, rounded toward zero. */
  lemma DurationIsMilliseconds(granule: int64)
    requires -TWO63 <= granule * 1000 < TWO63
    ensures granule >= 0 ==> DurationMs(granule) * 48 <= granule < (DurationMs(granule) + 1) * 48
    ensures granule < 0 ==> DurationMs(granule) == -DurationMs(-granule) || granule * 1000 == -TWO63
  {}

  /** What is not in the expected container, or does not parse, is passed on as it is; a CAF without packets panics. */
  lemma OthersPassThrough(data: seq<byte>, marked: bool)
    ensures !marked || ParseOgg(data).Err? ==> ToIMessage(data, marked) == data
    ensures !marked || ParseCaf(data).Rejected? ==> ToMatrix(data, marked) == Some((data, 0))
    ensures marked && ParseCaf(data).Parsed? && ParseCaf(data).value.packets == [] ==> ToMatrix(data, marked).None?
  {}

  /** Everything the Ogg parser accepts has audio packets and a head that describes it. */
  lemma ParsedStreams(data: seq<byte>)
    requires ParseOgg(data).Ok?
    ensures var info := ParseOgg(data).value;
      info.packets != [] && MatchesHead(info) && info.granulePos >= 0
  {
    NonnegativeGranule(data, Start());
  }

  lemma {:induction false} NonnegativeGranule(data: seq<byte>, r: Reading)
    requires r.lastGranule >= 0
    ensures ReadPages(data, r).Ok? ==> ReadPages(data, r).value.lastGranule >= 0
    decreases |data|
  {
    if |data| >= 27 && data[..4] == CapturePattern() && |data| >= 27 + (data[26] as nat) {
      var n: nat := data[26];
      var lacing, body := data[27..27 + n], data[27 + n..];
      if |body| >= Sum(lacing) {
        var g := PageGranule(data);
        NonnegativeGranule(body[Sum(lacing)..],
                           Reading(AddSegments(r.assembly, lacing, body[..Sum(lacing)]),
                                   if g > 0 then g else r.lastGranule));
      }
    }
  }

  /**
    A full remux preserves the stream: any Ogg input that parses comes back, after the
    trip through CAF, with the same head, packets, channels, pre-skip and end position,
    exactly when it ends after its pre-skip. The remaining conditions are size limits.
   */
  lemma RemuxPreservesStream(data: seq<byte>)
    requires ParseOgg(data).Ok?
    requires Writable(ParseOgg(data).value) && FitsMemory(ParseOgg(data).value)
    requires 0x1_0000 + TotalFrames(ParseOgg(data).value) < TWO63
    ensures var info := ParseOgg(data).value;
      var back := ToMatrix(ToIMessage(data, true), true);
      && back.Some?
      && (ParseOgg(back.value.0) == ParseOgg(data) <==> info.granulePos > info.preSkip)
      && (info.granulePos > info.preSkip && info.channels > 0 ==>
            back.value == (OggStream(info), DurationMs(info.granulePos)))
  {
    var info := ParseOgg(data).value;
    ParsedStreams(data);
    CafRoundTrip(info);
    CafRoundTripMatching(info);
    OggParseRoundTrip(ThroughCaf(info));
  }

  /** Bytes this bridge wrote as Ogg survive the trip to CAF and back unchanged. */
  lemma RemuxIsIdentityOnWrittenOgg(info: OpusInfo)
    requires Writable(info) && CafReady(info)
    requires info.channels > 0 && info.granulePos > info.preSkip
    ensures ToMatrix(ToIMessage(OggStream(info), true), true) == Some((OggStream(info), DurationMs(info.granulePos)))
  {
    OggRoundTripExact(info);
    CafRoundTripExact(info);
  }
}
