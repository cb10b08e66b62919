/** From media events to packets on streams: one timeline, one index for each track, one table of
    streams. */
module AdapterModel {
  import opened Bytes
  import opened FlvModel
  import opened FlvMultitrack

  const PROBE_LIMIT := 32
  const MS_TO_NS := 1_000_000
  const AUDIO_STREAM := 0
  const VIDEO_STREAM := 1
  const KEYFRAME: byte := 1
  const GENERATED_KEYFRAME: byte := 4
  const SEQUENCE_START: byte := 0
  const SEQUENCE_END: byte := 2
  const TIMESTAMP_OFFSET_NANO: byte := 0

  /** An audio or a video tag. */
  datatype Media = AudioMedia(audio: AudioTag) | VideoMedia(video: VideoTag)

  /** Why reading the next event failed: nothing in time, the stream broke off, or anything else. */
  datatype Fault = TimedOut | BrokenOff | Other

  datatype Event =
    | Frame(time: u32, media: Media)
    | Metadata(entries: seq<(seq<byte>, seq<byte>)>)
    | Skip
    | End
    | Fails(fault: Fault)

  datatype Packet = Packet(stream: nat, pts: int, dts: int, keyframe: bool, header: bool, data: seq<byte>)

  /** What asking for the next packet answers. */
  datatype Reply = Ok(packet: Packet) | Eof | Error

  // -------------------------------------------------------------------- timeline

  /** The wire time last seen, and where it lies on the timeline. */
  type Clock = Option<(u32, int)>

  function Signed32(v: u32): int {
    if v >= 0x8000_0000 then v - U32_MOD else v
  }

  function Unwrapped(clock: Clock, raw: u32): int {
    match clock
    case None => raw
    case Some((prev, ext)) => ext + Signed32(WrapSub(raw, prev))
  }

  function Wrapped(t: int): u32 {
    t % U32_MOD
  }

  /** Where each of `raws` lies on the timeline. */
  function UnwrapAll(clock: Clock, raws: seq<u32>): seq<int>
    decreases |raws|
  {
    if raws == [] then []
    else
      var t := Unwrapped(clock, raws[0]);
      [t] + UnwrapAll(Some((raws[0], t)), raws[1..])
  }

  function WrapAll(times: seq<int>): seq<u32> {
    if times == [] then [] else [Wrapped(times[0])] + WrapAll(times[1..])
  }

  /** Each time is less than half a turn away from the one before it. */
  predicate ShortSteps(last: int, times: seq<int>)
    decreases |times|
  {
    times == [] || (-0x8000_0000 <= times[0] - last < 0x8000_0000 && ShortSteps(times[0], times[1..]))
  }

  lemma StepUnwraps(a: int, b: int)
    ensures Signed32(WrapSub(Wrapped(b), Wrapped(a))) == b - a <==> -0x8000_0000 <= b - a < 0x8000_0000
  {
    var d := b - a;
    var qa, qb := a / U32_MOD, b / U32_MOD;
    assert a == qa * U32_MOD + Wrapped(a) && b == qb * U32_MOD + Wrapped(b);
    var w := WrapSub(Wrapped(b), Wrapped(a));
    assert (d - w) % U32_MOD == 0 by {
      var e := (Wrapped(b) - Wrapped(a)) / U32_MOD;
      assert d - w == (qb - qa + e) * U32_MOD;
    }
  }

  lemma {:induction false} UnwrapsFrom(last: int, times: seq<int>)
    ensures UnwrapAll(Some((Wrapped(last), last)), WrapAll(times)) == times <==> ShortSteps(last, times)
    decreases |times|
  {
    hide Signed32, WrapSub, Wrapped;
    if times != [] {
      var raws := WrapAll(times);
      assert raws[1..] == WrapAll(times[1..]);
      StepUnwraps(last, times[0]);
      var t := Unwrapped(Some((Wrapped(last), last)), raws[0]);
      ConsIff(t, UnwrapAll(Some((raws[0], t)), raws[1..]), times);
      UnwrapsFrom(times[0], times[1..]);
    }
  }

  /** A timeline is recovered from its low 32 bits exactly when it starts within them and always moves
      by less than half a turn. */
  lemma UnwrapsTimeline(times: seq<int>)
    ensures UnwrapAll(None, WrapAll(times)) == times <==>
            times == [] || (0 <= times[0] < U32_MOD && ShortSteps(times[0], times[1..]))
  {
    hide Signed32, WrapSub, Wrapped, ShortSteps;
    if times != [] {
      var raws := WrapAll(times);
      assert raws[1..] == WrapAll(times[1..]);
      ConsIff(raws[0], UnwrapAll(Some((raws[0], raws[0])), raws[1..]), times);
      FitsWrapped(times[0]);
      if Wrapped(times[0]) == times[0] {
        UnwrapsFrom(times[0], times[1..]);
      }
    }
  }

  lemma FitsWrapped(t: int)
    ensures Wrapped(t) == t <==> 0 <= t < U32_MOD
  {
  }

  // ------------------------------------------------------------ packets of one tag

  /** The nanosecond offsets a tag's modifiers add up to, saturating at 32 bits. */
  function OffsetNano(chain: seq<ModEx>): nat {
    if chain == [] then 0
    else
      var e, before := chain[|chain| - 1], OffsetNano(chain[..|chain| - 1]);
      if e.kind == TIMESTAMP_OFFSET_NANO && |e.data| >= 3 then Min(before + UnBE(e.data[..3]), U32_MOD - 1) else before
  }

  function AudioPacket(ms: int, tag: AudioTag, stream: nat, extra: nat): Packet {
    var pts := ms * MS_TO_NS + OffsetNano(tag.modEx) + extra;
    if tag.fourcc.Some? then
      Packet(stream, pts, pts, false, tag.exPacketType == Some(SEQUENCE_START) || tag.exPacketType == Some(SEQUENCE_END), tag.body)
    else if tag.format == FORMAT_AAC then
      Packet(stream, pts, pts, false, tag.aacPacketType == Some(SEQUENCE_START),
             [if tag.aacPacketType.Some? then tag.aacPacketType.value else AAC_RAW] + tag.body)
    else Packet(stream, pts, pts, false, false, tag.body)
  }

  function VideoPacket(ms: int, tag: VideoTag, stream: nat, extra: nat): Packet {
    var dts := ms * MS_TO_NS;
    var cts := if tag.codecId == CODEC_AVC || (tag.fourcc.Some? && tag.cts != 0) then tag.cts * MS_TO_NS else 0;
    var config := (tag.codecId == CODEC_AVC && tag.avcPacketType == Some(SEQUENCE_START))
                  || (tag.fourcc.Some? && tag.exPacketType == Some(SEQUENCE_START));
    var metadata := tag.fourcc.Some? && tag.exPacketType == Some(METADATA);
    Packet(stream, dts + cts + OffsetNano(tag.modEx) + extra, dts,
           !metadata && (tag.frameType == KEYFRAME || tag.frameType == GENERATED_KEYFRAME), config || metadata, tag.body)
  }

  function MediaPacket(ms: int, m: Media, stream: nat, extra: nat): Packet {
    match m
    case AudioMedia(a) => AudioPacket(ms, a, stream, extra)
    case VideoMedia(v) => VideoPacket(ms, v, stream, extra)
  }

  // ----------------------------------------------------------------------- tracks

  /** Tracks of one message, by number. */
  type Parts = seq<(byte, Media)>

  function AudioParts(ts: Tracks<AudioTag>): Parts {
    seq(|ts|, i requires 0 <= i < |ts| => (ts[i].0, AudioMedia(ts[i].1)))
  }

  function VideoParts(ts: Tracks<VideoTag>): Parts {
    seq(|ts|, i requires 0 <= i < |ts| => (ts[i].0, VideoMedia(ts[i].1)))
  }

  /** The tracks of a message, a plain one being the default track; `None` if a track is malformed. */
  function Split(m: Media): Option<Parts> {
    match m
    case AudioMedia(a) =>
      if a.multitrack.None? then Some([(0, m)])
      else (match DemuxAudio(a) case None => None case Some(ts) => Some(AudioParts(ts)))
    case VideoMedia(v) =>
      if v.multitrack.None? then Some([(0, m)])
      else (match DemuxVideo(v) case None => None case Some(ts) => Some(VideoParts(ts)))
  }

  /** The offset of a multitrack message counts for each of its tracks. */
  function OuterNano(m: Media): nat {
    match m
    case AudioMedia(a) => if a.multitrack.Some? then OffsetNano(a.modEx) else 0
    case VideoMedia(v) => if v.multitrack.Some? then OffsetNano(v.modEx) else 0
  }

  /** A track other than a default one, and its stream. */
  datatype Extra = Extra(audio: bool, track: byte, index: nat)

  function Find(extra: seq<Extra>, audio: bool, track: byte): Option<nat> {
    if extra == [] then None
    else if extra[0].audio == audio && extra[0].track == track then Some(extra[0].index)
    else Find(extra[1..], audio, track)
  }

  /** The stream of a track, if it has one. */
  function IndexOf(extra: seq<Extra>, audio: bool, track: byte): Option<nat> {
    if track == 0 then Some(if audio then AUDIO_STREAM else VIDEO_STREAM) else Find(extra, audio, track)
  }

  /** A track without a stream gets the next one. */
  function Assigned(extra: seq<Extra>, audio: bool, track: byte): seq<Extra> {
    if IndexOf(extra, audio, track).Some? then extra else extra + [Extra(audio, track, 2 + |extra|)]
  }

  // ---------------------------------------------------------------------- streams

  /** A stream, and the tag that fixed its parameters. */
  datatype Stream = Stream(index: nat, params: Media)

  predicate Has(streams: seq<Stream>, index: nat) {
    exists i :: 0 <= i < |streams| && streams[i].index == index
  }

  /** Sorting a sorted list with one more at its end. */
  function Insert(streams: seq<Stream>, s: Stream): seq<Stream> {
    if streams == [] || s.index < streams[0].index then [s] + streams else [streams[0]] + Insert(streams[1..], s)
  }

  function Registered(streams: seq<Stream>, s: Stream): seq<Stream> {
    if Has(streams, s.index) then streams else Insert(streams, s)
  }

  // ----------------------------------------------------------------------- events

  /** What a source knows besides the packets it still owes. */
  datatype Core = Core(clock: Clock, extra: seq<Extra>, streams: seq<Stream>, metadata: seq<(seq<byte>, seq<byte>)>)

  const FRESH := Core(None, [], [], [])

  /** One track of a message gets its stream. */
  function Placed(core: Core, track: byte, m: Media): Core {
    var extra := Assigned(core.extra, m.AudioMedia?, track);
    core.(extra := extra, streams := Registered(core.streams, Stream(StreamOf(core, track, m), m)))
  }

  function StreamOf(core: Core, track: byte, m: Media): nat {
    match IndexOf(core.extra, m.AudioMedia?, track)
    case Some(i) => i
    case None => 2 + |core.extra|
  }

  /** All tracks of a message, in order. */
  function PlacedAll(core: Core, parts: Parts): Core
    decreases |parts|
  {
    if parts == [] then core else PlacedAll(Placed(core, parts[0].0, parts[0].1), parts[1..])
  }

  function PacketsOf(core: Core, ms: int, parts: Parts, extra: nat): (ps: seq<Packet>)
    ensures |ps| == |parts|
    decreases |parts|
  {
    if parts == [] then []
    else
      [MediaPacket(ms, parts[0].1, StreamOf(core, parts[0].0, parts[0].1), extra)]
      + PacketsOf(Placed(core, parts[0].0, parts[0].1), ms, parts[1..], extra)
  }

  function Timed(core: Core, raw: u32): Core {
    core.(clock := Some((raw, Unwrapped(core.clock, raw))))
  }

  /** What a source knows after an event. */
  function After(core: Core, e: Event): Core {
    match e
    case Frame(raw, m) =>
      (match Split(m)
       case None => Timed(core, raw)
       case Some(parts) => PlacedAll(Timed(core, raw), parts))
    case Metadata(entries) => core.(metadata := core.metadata + entries)
    case _ => core
  }

  function Oks(ps: seq<Packet>): (rs: seq<Reply>)
    ensures |rs| == |ps|
    ensures forall i :: 0 <= i < |ps| ==> rs[i] == Ok(ps[i])
  {
    seq(|ps|, i requires 0 <= i < |ps| => Ok(ps[i]))
  }

  /** The replies an event gives rise to. */
  function Replies(core: Core, e: Event): seq<Reply> {
    match e
    case Frame(raw, m) =>
      (match Split(m)
       case None => [Error]
       case Some(parts) => Oks(PacketsOf(Timed(core, raw), Unwrapped(core.clock, raw), parts, OuterNano(m))))
    case Fails(fault) => [if fault == BrokenOff then Eof else Error]
    case _ => []
  }

  /** All replies until the end, after which there is only `Eof`. */
  function Deliver(core: Core, events: seq<Event>): seq<Reply>
    decreases |events|
  {
    if events == [] || events[0].End? then []
    else Replies(core, events[0]) + Deliver(After(core, events[0]), events[1..])
  }

  /** What a source knows in the end. */
  function AtEnd(core: Core, events: seq<Event>): Core
    decreases |events|
  {
    if events == [] || events[0].End? then core else AtEnd(After(core, events[0]), events[1..])
  }
}
