/** From the octets of messages to packets: what each field of a packet is, for every kind of message. */
module AdapterPackets {
  import opened Bytes
  import opened FlvModel
  import opened FlvRoundTrip
  import opened FlvMultitrack
  import opened FlvOctets
  import opened AdapterModel
  import opened AdapterStreams
  import opened AdapterTimeline
  import opened Adapter

  // -------------------------------------------------------------- tags and packets

  /** A video packet's data is the body of its tag. It is a key frame for frame types 1 and 4, but not
      when it carries metadata; it is a header for metadata and for sequence starts. It decodes at the
      message time, and is presented its composition time and nanosecond offsets later. */
  lemma VideoPacketSays(ms: int, v: VideoTag, stream: nat, extra: nat)
    ensures var p := MediaPacket(ms, VideoMedia(v), stream, extra);
            var metadata := v.fourcc.Some? && v.exPacketType == Some(4);
            && p.stream == stream && p.data == v.body
            && (p.keyframe <==> !metadata && v.frameType in {1, 4})
            && (p.header <==> metadata || (v.codecId == 7 && v.avcPacketType == Some(0)) || (v.fourcc.Some? && v.exPacketType == Some(0)))
            && p.dts == ms * 1_000_000
            && p.pts - p.dts == (if v.codecId == 7 || v.fourcc.Some? then v.cts * 1_000_000 else 0) + OffsetNano(v.modEx) + extra
  {
  }

  /** An audio packet's data is the body of its tag, behind the packet type for legacy AAC only. It is a
      header for sequence starts, and for enhanced sequence ends. Both its times carry the offsets. */
  lemma AudioPacketSays(ms: int, a: AudioTag, stream: nat, extra: nat)
    ensures var p := MediaPacket(ms, AudioMedia(a), stream, extra);
            var aac := a.fourcc.None? && a.format == 10;
            && p.stream == stream && !p.keyframe && p.pts == p.dts == ms * 1_000_000 + OffsetNano(a.modEx) + extra
            && p.data == (if aac then [if a.aacPacketType.Some? then a.aacPacketType.value else 1] else []) + a.body
            && (p.header <==> (aac && a.aacPacketType == Some(0)) || (a.fourcc.Some? && a.exPacketType in {Some(0), Some(2)}))
  {
  }

  /** A modifier of kind 0 with at least three octets adds the number they spell; no other adds any. */
  lemma OneOffset(e: ModEx)
    ensures OffsetNano([e]) == if e.kind == 0 && |e.data| >= 3 then (e.data[0] as int) * 65536 + (e.data[1] as int) * 256 + e.data[2] else 0
  {
    assert [e][..0] == [];
    if |e.data| >= 3 {
      ThreeOctets(e.data[..3]);
    }
  }

  lemma ThreeOctets(s: seq<byte>)
    requires |s| == 3
    ensures UnBE(s) == (s[0] as int) * 65536 + (s[1] as int) * 256 + s[2]
  {
    TwoOctets(s[0], s[1]);
    assert s[..2] == [s[0], s[1]];
  }

  // -------------------------------------------------------------- single messages

  /** The messages for one track, by what their octets say. */
  datatype Spelled =
    | LegacyVideo(frameType: byte, codec: byte, body: seq<byte>)
    | Avc(frameType: byte, apt: byte, time: int, body: seq<byte>)
    | ExVideo(frameType: byte, packetType: byte, fourcc: FourCC, body: seq<byte>)
    | TimedVideo(frameType: byte, fourcc: FourCC, time: int, body: seq<byte>)
    | LegacyAudio(format: byte, rate: byte, size16: bool, stereo: bool, body: seq<byte>)
    | Aac(rate: byte, size16: bool, stereo: bool, apt: byte, body: seq<byte>)
    | ExAudio(packetType: byte, fourcc: FourCC, body: seq<byte>)

  const TIMED_CODECS: set<FourCC> := {[0x68, 0x76, 0x63, 0x31], [0x61, 0x76, 0x63, 0x31], [0x76, 0x76, 0x63, 0x31]}

  predicate SpelledOk(m: Spelled) {
    match m
    case LegacyVideo(ft, codec, _) => ft < 8 && codec < 16 && (codec != 7 || ft == 5)
    case Avc(ft, _, time, _) => ft < 8 && ft != 5 && -0x80_0000 <= time < 0x80_0000
    case ExVideo(ft, pt, fourcc, _) => ft < 8 && pt < 16 && pt != 6 && pt != 7 && (ft == 5 || pt != 1 || fourcc !in TIMED_CODECS)
    case TimedVideo(ft, fourcc, time, _) => ft < 8 && ft != 5 && fourcc in TIMED_CODECS && -0x80_0000 <= time < 0x80_0000
    case LegacyAudio(format, rate, _, _, _) => format < 16 && format != 9 && format != 10 && rate < 4
    case Aac(rate, _, _, _, _) => rate < 4
    case ExAudio(pt, _, _) => pt < 16 && pt != 5 && pt != 7
  }

  function SpelledOctets(m: Spelled): seq<byte>
    requires SpelledOk(m)
  {
    match m
    case LegacyVideo(ft, codec, body) => [ft * 16 + codec] + body
    case Avc(ft, apt, time, body) => [ft * 16 + 7] + ([apt] + (SI24(time) + body))
    case ExVideo(ft, pt, fourcc, body) => [0x80 + ft * 16 + pt] + (fourcc + body)
    case TimedVideo(ft, fourcc, time, body) => [0x81 + ft * 16] + (fourcc + (SI24(time) + body))
    case LegacyAudio(format, rate, size16, stereo, body) => [SoundOctet(format, rate, size16, stereo)] + body
    case Aac(rate, size16, stereo, apt, body) => [SoundOctet(10, rate, size16, stereo)] + ([apt] + body)
    case ExAudio(pt, fourcc, body) => [0x90 + pt] + (fourcc + body)
  }

  predicate IsAudio(m: Spelled) {
    m.LegacyAudio? || m.Aac? || m.ExAudio?
  }

  /** What is received: an audio or a video message. */
  function Received(audio: bool, w: seq<byte>): Option<Media> {
    if audio then (match ParseAudio(w) case None => None case Some(a) => Some(AudioMedia(a)))
    else (match ParseVideo(w) case None => None case Some(v) => Some(VideoMedia(v)))
  }

  /** The packet a message gives rise to at a time in milliseconds, on the default stream of its kind. */
  function Expected(m: Spelled, ms: int): Packet {
    var t := ms * 1_000_000;
    match m
    case LegacyVideo(ft, _, body) => Packet(1, t, t, ft in {1, 4}, false, body)
    case Avc(ft, apt, time, body) => Packet(1, t + time * 1_000_000, t, ft in {1, 4}, apt == 0, body)
    case ExVideo(ft, pt, _, body) => Packet(1, t, t, pt != 4 && ft in {1, 4}, pt in {0, 4}, body)
    case TimedVideo(ft, _, time, body) => Packet(1, t + time * 1_000_000, t, ft in {1, 4}, false, body)
    case LegacyAudio(_, _, _, _, body) => Packet(0, t, t, false, false, body)
    case Aac(_, _, _, apt, body) => Packet(0, t, t, false, apt == 0, [apt] + body)
    case ExAudio(pt, _, body) => Packet(0, t, t, false, pt in {0, 2}, body)
  }

  /** Every single-track message is received, is one track, and becomes exactly that packet. */
  lemma MessageToPacket(m: Spelled, ms: int)
    requires SpelledOk(m)
    ensures var got := Received(IsAudio(m), SpelledOctets(m));
            && got.Some? && Split(got.value) == Some([(0, got.value)]) && OuterNano(got.value) == 0
            && got.value.AudioMedia? == IsAudio(m)
            && MediaPacket(ms, got.value, if IsAudio(m) then 0 else 1, 0) == Expected(m, ms)
  {
    hide ParseVideo, ParseAudio, DemuxVideo, DemuxAudio, SI24, SoundOctet;
    match m {
      case LegacyVideo(ft, codec, body) => LegacyFrame(ft, codec, body);
      case Avc(ft, apt, time, body) => AvcFrame(ft, apt, time, body);
      case ExVideo(ft, pt, fourcc, body) => UntimedFrame(ft, pt, fourcc, body);
      case TimedVideo(ft, fourcc, time, body) => TimedFrame(ft, fourcc, time, body);
      case LegacyAudio(format, rate, size16, stereo, body) => LegacySound(format, rate, size16, stereo, 0, body);
      case Aac(rate, size16, stereo, apt, body) => LegacySound(10, rate, size16, stereo, apt, body);
      case ExAudio(pt, fourcc, body) => ExAudioFrame(pt, fourcc, body);
    }
  }

  /** And the data are the end of the message. */
  lemma DataIsTheEnd(m: Spelled, ms: int)
    requires SpelledOk(m)
    ensures Tail(Expected(m, ms).data, SpelledOctets(m))
  {
    hide SI24, SoundOctet, Tail;
    match m {
      case LegacyVideo(ft, codec, body) => EndOf([ft * 16 + codec], body);
      case Avc(ft, apt, time, body) =>
        Assoc4([ft * 16 + 7], [apt], SI24(time), body);
        EndOf([ft * 16 + 7] + [apt] + SI24(time), body);
      case ExVideo(ft, pt, fourcc, body) =>
        Assoc3([0x80 + ft * 16 + pt], fourcc, body);
        EndOf([0x80 + ft * 16 + pt] + fourcc, body);
      case TimedVideo(ft, fourcc, time, body) =>
        Assoc4([0x81 + ft * 16], fourcc, SI24(time), body);
        EndOf([0x81 + ft * 16] + fourcc + SI24(time), body);
      case LegacyAudio(format, rate, size16, stereo, body) => EndOf([SoundOctet(format, rate, size16, stereo)], body);
      case Aac(rate, size16, stereo, apt, body) => EndOf([SoundOctet(10, rate, size16, stereo)], [apt] + body);
      case ExAudio(pt, fourcc, body) =>
        Assoc3([0x90 + pt], fourcc, body);
        EndOf([0x90 + pt] + fourcc, body);
    }
  }

  lemma EndOf(a: seq<byte>, b: seq<byte>)
    ensures Tail(b, a + b)
  {
    SplitAt(a, b);
  }

  // ----------------------------------------------------------------------- sessions

  function MediaOf(m: Spelled): Media
    requires SpelledOk(m)
  {
    MessageToPacket(m, 0);
    Received(IsAudio(m), SpelledOctets(m)).value
  }

  function MediasOf(msgs: seq<Spelled>): (r: seq<Media>)
    requires forall m <- msgs :: SpelledOk(m)
    ensures |r| == |msgs|
  {
    if msgs == [] then [] else [MediaOf(msgs[0])] + MediasOf(msgs[1..])
  }

  function ExpectedAll(times: seq<int>, msgs: seq<Spelled>): (r: seq<Packet>)
    requires |times| == |msgs|
    ensures |r| == |msgs|
  {
    if msgs == [] then [] else [Expected(msgs[0], times[0])] + ExpectedAll(times[1..], msgs[1..])
  }

  lemma {:induction false} PlainFrames(core: Core, times: seq<int>, msgs: seq<Spelled>)
    requires |times| == |msgs| && forall m <- msgs :: SpelledOk(m)
    ensures DeliverAt(core, times, MediasOf(msgs)) == Oks(ExpectedAll(times, msgs))
    decreases |msgs|
  {
    hide Expected, SpelledOk, MediaOf, RepliesAt, AfterFrame;
    if msgs != [] {
      var m := msgs[0];
      assert m in msgs && forall x <- msgs[1..] :: x in msgs;
      FrameOnDefault(core, m, times[0]);
      PlainFrames(AfterFrame(core, MediaOf(m)), times[1..], msgs[1..]);
      assert MediasOf(msgs)[1..] == MediasOf(msgs[1..]);
      MoreOks([Expected(m, times[0])], ExpectedAll(times[1..], msgs[1..]));
    }
  }

  lemma FrameOnDefault(core: Core, m: Spelled, time: int)
    requires SpelledOk(m)
    ensures RepliesAt(core, time, MediaOf(m)) == Oks([Expected(m, time)])
  {
    hide Expected, MediaPacket, SpelledOk, SpelledOctets, Received, Split, OuterNano, RepliesAt;
    MessageToPacket(m, time);
    OnDefault(core, m, MediaOf(m), time);
  }

  lemma OnDefault(core: Core, m: Spelled, media: Media, time: int)
    requires Split(media) == Some([(0, media)]) && OuterNano(media) == 0 && media.AudioMedia? == IsAudio(m)
    requires MediaPacket(time, media, if IsAudio(m) then 0 else 1, 0) == Expected(m, time)
    ensures RepliesAt(core, time, media) == Oks([Expected(m, time)])
  {
    hide Expected, MediaPacket, Split, OuterNano, Placed;
    var parts: Parts := [(0, media)];
    assert StreamOf(core, 0, media) == if IsAudio(m) then 0 else 1;
    assert parts[1..] == [];
    assert PacketsOf(core, time, parts, 0) == [Expected(m, time)] + [];
  }

  /** A session of any such messages, received at 32-bit times that follow a timeline, is exactly its
      packets at the true times, and then the end. */
  lemma SessionToPackets(times: seq<int>, msgs: seq<Spelled>)
    requires |times| == |msgs| && forall m <- msgs :: SpelledOk(m)
    requires times != [] ==> 0 <= times[0] < U32_MOD && ShortSteps(times[0], times[1..])
    ensures Deliver(FRESH, SentAt(times, MediasOf(msgs))) == Oks(ExpectedAll(times, msgs))
  {
    hide SpelledOk, ShortSteps, DeliverAt, Deliver, SentAt, MediasOf, ExpectedAll;
    DeliversTrueTimes(times, MediasOf(msgs));
    PlainFrames(FRESH, times, msgs);
  }

  /** So asking a source for as many packets as there were messages gives exactly these. */
  method PlayedBack(times: seq<int>, msgs: seq<Spelled>) returns (rs: seq<Reply>)
    requires |times| == |msgs| && forall m <- msgs :: SpelledOk(m)
    requires times != [] ==> 0 <= times[0] < U32_MOD && ShortSteps(times[0], times[1..])
    ensures rs == Oks(ExpectedAll(times, msgs)) + [Eof]
  {
    hide SpelledOk, ShortSteps, DeliverAt, Deliver, SentAt, MediasOf, ExpectedAll, Observed;
    SessionToPackets(times, msgs);
    var source := new PacketSource(SentAt(times, MediasOf(msgs)));
    ObservedWhole(Oks(ExpectedAll(times, msgs)));
    rs := source.Ask(|msgs| + 1);
  }

  // -------------------------------------------------------------- several tracks

  /** A message for one track is that track; one for several is its tracks, with their own numbers, in
      order; and the offset in front of it counts for each of them. */
  lemma SplitSays(m: Media)
    ensures match m
            case AudioMedia(a) =>
              (if a.multitrack.None? then Split(m) == Some([(0, m)]) && OuterNano(m) == 0
               else && OuterNano(m) == OffsetNano(a.modEx)
                    && match DemuxAudio(a)
                       case None => Split(m) == None
                       case Some(ts) =>
                         && Split(m).Some? && |Split(m).value| == |ts|
                         && forall i :: 0 <= i < |ts| ==> Split(m).value[i] == (ts[i].0, AudioMedia(ts[i].1)))
            case VideoMedia(v) =>
              (if v.multitrack.None? then Split(m) == Some([(0, m)]) && OuterNano(m) == 0
               else && OuterNano(m) == OffsetNano(v.modEx)
                    && match DemuxVideo(v)
                       case None => Split(m) == None
                       case Some(ts) =>
                         && Split(m).Some? && |Split(m).value| == |ts|
                         && forall i :: 0 <= i < |ts| ==> Split(m).value[i] == (ts[i].0, VideoMedia(ts[i].1)))
  {
    hide DemuxAudio, DemuxVideo, OffsetNano;
  }

  /** Video tags gathered into one message, modified, sent and received, become one packet each: on the
      stream of its track, at the time of the message, with the message's offset. */
  lemma GatheredVideoDelivers(core: Core, raw: u32, mode: byte, tracks: Tracks<VideoTag>, chain: seq<ModEx>)
    requires CoreOk(core) && mode < 16 && MuxVideo(mode, tracks).Some? && ChainOk(chain) && VideoTracksOk(mode, tracks)
    ensures var w := BuildVideo(MuxVideo(mode, tracks).value.(modEx := chain));
            && ParseVideo(w).Some?
            && var e := Frame(raw, VideoMedia(ParseVideo(w).value));
               && |Replies(core, e)| == |tracks|
               && forall i :: 0 <= i < |tracks| ==>
                 var stream := IndexOf(After(core, e).extra, false, tracks[i].0);
                 && stream.Some?
                 && Replies(core, e)[i] == Ok(MediaPacket(Unwrapped(core.clock, raw), VideoMedia(tracks[i].1), stream.value, OffsetNano(chain)))
  {
    hide BuildVideo, ParseVideo, DemuxVideo, MuxVideoTracks, OffsetNano, MediaPacket, Unwrapped, CoreOk, VideoTracksOk, PacketsOf, PlacedAll,
      IndexOf;
    VideoTracksExact(mode, tracks, chain);
    MuxedVideoShape(mode, tracks);
    var outer := MuxVideo(mode, tracks).value.(modEx := chain);
    hide MuxVideo;
    var tag := ParseVideo(BuildVideo(outer)).value;
    OuterKept(outer, tag, mode, tracks, chain);
    SplitSays(VideoMedia(tag));
    var parts := Split(VideoMedia(tag)).value;
    assert parts == VideoParts(tracks);
    TimedOk(core, raw);
    PlacedAllKeeps(Timed(core, raw), Unwrapped(core.clock, raw), parts, OffsetNano(chain));
  }

  /** The modifiers of the message arrive with it. */
  lemma OuterKept(outer: VideoTag, tag: VideoTag, mode: byte, tracks: Tracks<VideoTag>, chain: seq<ModEx>)
    requires mode < 16 && MuxVideo(mode, tracks).Some? && outer == MuxVideo(mode, tracks).value.(modEx := chain)
    requires ChainOk(chain) && VideoTracksOk(mode, tracks) && ParseVideo(BuildVideo(outer)) == Some(tag)
    ensures tag.multitrack.Some? && tag.modEx == chain
  {
    hide ParseVideo, BuildVideo, MuxVideo, MuxVideoTracks, TracksOk, ParseTracks, BuildTracks, Fits;
    MuxedVideoShape(mode, tracks);
    MuxedVideoFits(mode, tracks);
    VideoFaceOk(tracks[0].1, Plan(outer.exPacketType.value, outer.fourcc));
    OuterVideoRead(outer);
  }

  // ------------------------------------------------------------- everything else

  /** What each event that is not a frame does: a failed read is reported, as the end for a stream that
      broke off, and changes nothing; metadata is kept, in order; the end is final. */
  lemma OtherEvents(core: Core, e: Event, more: seq<Event>)
    ensures match e
            case Frame(_, _) => true
            case Fails(BrokenOff) => Deliver(core, [e] + more) == [Eof] + Deliver(core, more) && After(core, e) == core
            case Fails(_) => Deliver(core, [e] + more) == [Error] + Deliver(core, more) && After(core, e) == core
            case Metadata(entries) =>
              var kept := Core(core.clock, core.extra, core.streams, core.metadata + entries);
              Deliver(core, [e] + more) == Deliver(kept, more) && After(core, e) == kept
            case Skip => Deliver(core, [e] + more) == Deliver(core, more) && After(core, e) == core
            case End => Deliver(core, [e] + more) == [] && AtEnd(core, [e] + more) == core
  {
    var es := [e] + more;
    assert es[0] == e && es[1..] == more;
    if e.Metadata? || e.Skip? {
      assert [] + Deliver(After(core, e), more) == Deliver(After(core, e), more);
    }
  }

  /** A frame with a malformed track is reported and moves the clock only. */
  lemma MalformedFrame(core: Core, raw: u32, m: Media, more: seq<Event>)
    requires Split(m).None?
    ensures var timed := Core(Some((raw, Unwrapped(core.clock, raw))), core.extra, core.streams, core.metadata);
            Deliver(core, [Frame(raw, m)] + more) == [Error] + Deliver(timed, more)
  {
    hide Split, Unwrapped;
    var es := [Frame(raw, m)] + more;
    assert es[0] == Frame(raw, m) && es[1..] == more;
  }

  /** Default tracks have streams 0 and 1; a new track takes the next number from 2 on; and the first
      tag on a stream fixes its parameters. */
  lemma PlacedSays(core: Core, track: byte, m: Media)
    requires CoreOk(core)
    ensures var s := StreamOf(core, track, m);
            && (track == 0 ==> s == if m.AudioMedia? then 0 else 1)
            && (track != 0 && IndexOf(core.extra, m.AudioMedia?, track).None? ==> s == 2 + |core.extra|)
            && (track != 0 && IndexOf(core.extra, m.AudioMedia?, track).Some? ==> s == IndexOf(core.extra, m.AudioMedia?, track).value)
            && (Has(core.streams, s) ==> Placed(core, track, m).streams == core.streams)
            && (!Has(core.streams, s) ==> forall x :: x in Placed(core, track, m).streams <==> x in core.streams || x == Stream(s, m))
            && Placed(core, track, m).clock == core.clock && Placed(core, track, m).metadata == core.metadata
  {
    hide Find, Insert;
    if !Has(core.streams, StreamOf(core, track, m)) {
      InsertKeeps(core.streams, Stream(StreamOf(core, track, m), m));
    }
  }
}
