/** Opus packet durations from the TOC byte (sections 3.1 and 3.2 of RFC 6716). */
module OpusToc {
  import opened Bytes

  /** Samples per frame at 48 kHz for each of the 32 TOC configurations. */
  function SamplesPerFrame(config: nat): (n: nat)
    requires config < 32
    ensures n in {120, 240, 480, 960, 1920, 2880}
  {
    if config < 12 then [480, 960, 1920, 2880][config % 4]
    else if config < 16 then [480, 960][config % 2]
    else [120, 240, 480, 960][(config - 16) % 4]
  }

  /** opusPacketFrames: never zero, and at most 63 frames of 60 ms. */
  function PacketFrames(packet: seq<byte>): (n: nat)
    ensures 120 <= n <= 63 * 2880
  {
    if |packet| == 0 then 960
    else
      var samples := SamplesPerFrame(packet[0] / 8);
      var code := packet[0] % 4;
      if code == 0 then samples
      else if code < 3 then samples * 2
      else if |packet| >= 2 && packet[1] % 64 > 0 then samples * (packet[1] % 64)
      else samples
  }

  /** Frame duration of a configuration in tenths of a millisecond, as table 2 of RFC 6716 lists them. */
  function FrameDuration(config: nat): nat
    requires config < 32
  {
    if config in {16, 20, 24, 28} then 25
    else if config in {17, 21, 25, 29} then 50
    else if config in {0, 4, 8, 12, 14, 18, 22, 26, 30} then 100
    else if config in {2, 6, 10} then 400
    else if config in {3, 7, 11} then 600
    else 200
  }

  /** Frames of a packet by its frame count code (section 3.2 of RFC 6716); none for a malformed code 3 packet. */
  function FrameCount(packet: seq<byte>): nat
    requires packet != []
  {
    match packet[0] % 4
    case 0 => 1
    case 3 => if |packet| == 1 then 0 else packet[1] % 64
    case _ => 2
  }

  /** The count is the packet's duration at 48 kHz, or one frame for a packet without a frame count. */
  lemma FramesAreDuration(packet: seq<byte>)
    requires packet != []
    ensures var frames := if FrameCount(packet) == 0 then 1 else FrameCount(packet);
      10 * PacketFrames(packet) == 48 * (frames * FrameDuration(packet[0] / 8))
  {
    FramesOfSamples(packet);
  }

  lemma FramesOfSamples(packet: seq<byte>)
    requires packet != []
    ensures PacketFrames(packet)
         == (if FrameCount(packet) == 0 then 1 else FrameCount(packet)) * SamplesPerFrame(packet[0] / 8)
  {}
}
