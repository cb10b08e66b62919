/** What the octets of audio and video messages mean, spelled out. */
module FlvOctets {
  import opened Bytes
  import opened FlvModel
  import opened FlvRoundTrip

  /** 24 bits; negative numbers in two's complement. */
  function SI24(t: int): (s: seq<byte>)
    requires -0x80_0000 <= t < 0x100_0000
    ensures |s| == 3
  {
    UI24(if t < 0 then t + 0x100_0000 else t)
  }

  lemma SI24Is(t: int)
    requires -0x80_0000 <= t < 0x100_0000
    ensures BE(3, t % 0x100_0000) == SI24(t)
  {
    hide BE, UI24;
    UI24Is(t % 0x100_0000);
  }

  // ----------------------------------------------------------------------- video

  lemma ExVideoHead(ft: byte, first: byte, rest: seq<byte>)
    requires ft < 8 && first < 16
    ensures ParseVideo([0x80 + ft * 16 + first] + rest) == ParseExVideo(ft, first, rest)
  {
    hide ParseExVideo, ParseLegacyVideo;
    HeadOctet(ft, first);
    var w: seq<byte> := [0x80 + ft * 16 + first] + rest;
    assert w[1..] == rest;
  }

  lemma PlainPrelude(first: byte, fourcc: FourCC, rest: seq<byte>, mt: byte)
    requires first < 16 && first != mt && first != 7
    ensures ParsePrelude(first, fourcc + rest, mt) == Got(Prelude([], None, first, Some(fourcc)), rest)
  {
    hide ParseChain;
    FourCCRead(fourcc, rest);
  }

  /** Coded frames of the three codecs carry a signed 24-bit composition time behind the FourCC. */
  lemma TimedFrame(ft: byte, fourcc: FourCC, t: int, body: seq<byte>)
    requires ft < 8 && ft != 5 && -0x80_0000 <= t < 0x80_0000
    requires fourcc in {[0x68, 0x76, 0x63, 0x31], [0x61, 0x76, 0x63, 0x31], [0x76, 0x76, 0x63, 0x31]}
    ensures ParseVideo([0x81 + ft * 16] + (fourcc + (SI24(t) + body)))
         == Some(VideoTag(ft, 0, None, t, body, Some(1), Some(fourcc), [], None))
  {
    hide ParsePrelude, BE, UnBE;
    ExVideoHead(ft, 1, fourcc + (SI24(t) + body));
    PlainPrelude(1, fourcc, SI24(t) + body, VIDEO_MULTITRACK);
    TimeNeeded(ft, 1, fourcc);
    SI24Is(t);
    CtsExact(true, t, body);
  }

  /** All other single-track messages carry none: everything behind the FourCC is the body. */
  lemma UntimedFrame(ft: byte, pt: byte, fourcc: FourCC, body: seq<byte>)
    requires ft < 8 && pt < 16 && pt != 6 && pt != 7
    requires ft == 5 || pt != 1 || fourcc !in {[0x68, 0x76, 0x63, 0x31], [0x61, 0x76, 0x63, 0x31], [0x76, 0x76, 0x63, 0x31]}
    ensures ParseVideo([0x80 + ft * 16 + pt] + (fourcc + body))
         == Some(VideoTag(ft, 0, None, 0, body, Some(pt), Some(fourcc), [], None))
  {
    hide ParsePrelude;
    ExVideoHead(ft, pt, fourcc + body);
    PlainPrelude(pt, fourcc, body, VIDEO_MULTITRACK);
    TimeNeeded(ft, pt, fourcc);
  }

  lemma LegacyVideoHead(ft: byte, codec: byte, rest: seq<byte>)
    requires ft < 8 && codec < 16
    ensures ParseVideo([ft * 16 + codec] + rest) == ParseLegacyVideo(ft, codec, rest)
  {
    hide ParseExVideo, ParseLegacyVideo;
    NibbleRead(ft, codec);
    var w: seq<byte> := [ft * 16 + codec] + rest;
    assert w[1..] == rest;
  }

  /** A legacy frame of codec 7: packet type, composition time, body. */
  lemma AvcFrame(ft: byte, apt: byte, t: int, body: seq<byte>)
    requires ft < 8 && ft != 5 && -0x80_0000 <= t < 0x80_0000
    ensures ParseVideo([ft * 16 + 7] + ([apt] + (SI24(t) + body)))
         == Some(VideoTag(ft, 7, Some(apt), t, body, None, None, [], None))
  {
    hide BE, UnBE;
    LegacyVideoHead(ft, 7, [apt] + (SI24(t) + body));
    SI24Is(t);
    CtsExact(true, t, body);
  }

  /** Any other legacy frame is its body. */
  lemma LegacyFrame(ft: byte, codec: byte, body: seq<byte>)
    requires ft < 8 && codec < 16 && (codec != 7 || ft == 5)
    ensures ParseVideo([ft * 16 + codec] + body) == Some(VideoTag(ft, codec, None, 0, body, None, None, [], None))
  {
    LegacyVideoHead(ft, codec, body);
  }

  // ------------------------------------------------------------------- modifiers

  /** The size of a modifier's data, less one, in one octet or behind 0xFF in two. */
  predicate SizeSpelled(s: seq<byte>, size: nat) {
    || (1 <= size <= 255 && s == [size - 1])
    || (1 <= size <= 65536 && s == [0xFF, (size - 1) / 256, (size - 1) % 256])
  }

  lemma SizeMeans(s: seq<byte>, size: nat, tail: seq<byte>)
    requires SizeSpelled(s, size)
    ensures ParseSize(s + tail) == Got(size, tail)
  {
    hide UnBE;
    if s[0] == 0xFF && |s| == 3 {
      assert s + tail == [0xFF] + ([s[1], s[2]] + tail);
      TwoOctets(s[1], s[2]);
      TakePrefix([s[1], s[2]], tail);
    }
  }

  lemma TwoOctets(a: byte, b: byte)
    ensures UnBE([a, b]) == (a as int) * 256 + b
  {
    var s: seq<byte> := [a];
    assert [a, b][..1] == s && s[..0] == [];
    assert UnBE(s) == a;
  }

  lemma ModExMeans(s: seq<byte>, kind: byte, data: seq<byte>, next: byte, tail: seq<byte>)
    requires SizeSpelled(s, |data|) && kind < 16 && next < 16
    ensures ParseModEx(s + (data + ([kind * 16 + next] + tail))) == Got((ModEx(kind, data), next), tail)
  {
    hide ParseSize;
    SizeMeans(s, |data|, data + ([kind * 16 + next] + tail));
    TakePrefix(data, [kind * 16 + next] + tail);
    NibbleRead(kind, next);
  }

  /** The outcome with one modifier more in front. */
  function Modified(e: ModEx, g: Got<Prelude>): Got<Prelude> {
    match g
    case Short => Short
    case Got(p, w) => Got(p.(modEx := [e] + p.modEx), w)
  }

  lemma PreludeModified(s: seq<byte>, kind: byte, data: seq<byte>, next: byte, rest: seq<byte>, mt: byte)
    requires SizeSpelled(s, |data|) && kind < 16 && next < 16
    ensures ParsePrelude(7, s + (data + ([kind * 16 + next] + rest)), mt)
         == Modified(ModEx(kind, data), ParsePrelude(next, rest, mt))
  {
    hide ParseModEx, ParseMode, ParseSharedFourCC;
    ModExMeans(s, kind, data, next, rest);
    assert [ModEx(kind, data)] + [] == [ModEx(kind, data)];
  }

  /** A modifier in front of a video message adds itself to what follows, and changes nothing else. */
  lemma ModifiedVideo(ft: byte, s: seq<byte>, kind: byte, data: seq<byte>, next: byte, rest: seq<byte>)
    requires ft < 8 && SizeSpelled(s, |data|) && kind < 16 && next < 16
    ensures ParseVideo([0x87 + ft * 16] + (s + (data + ([kind * 16 + next] + rest))))
         == match ParseVideo([0x80 + ft * 16 + next] + rest)
            case None => None
            case Some(tag) => Some(tag.(modEx := [ModEx(kind, data)] + tag.modEx))
  {
    hide ParsePrelude, ParseVideo, ParseTracks, ParseCts, NeedsCts;
    ExVideoHead(ft, 7, s + (data + ([kind * 16 + next] + rest)));
    ExVideoHead(ft, next, rest);
    PreludeModified(s, kind, data, next, rest, VIDEO_MULTITRACK);
  }

  lemma ModifiedAudio(s: seq<byte>, kind: byte, data: seq<byte>, next: byte, rest: seq<byte>)
    requires SizeSpelled(s, |data|) && kind < 16 && next < 16
    ensures ParseAudio([0x97] + (s + (data + ([kind * 16 + next] + rest))))
         == match ParseAudio([0x90 + next] + rest)
            case None => None
            case Some(tag) => Some(tag.(modEx := [ModEx(kind, data)] + tag.modEx))
  {
    hide ParsePrelude, ParseAudio, ParseTracks;
    ExAudioHead(7, s + (data + ([kind * 16 + next] + rest)));
    ExAudioHead(next, rest);
    PreludeModified(s, kind, data, next, rest, AUDIO_MULTITRACK);
  }

  // ---------------------------------------------------------------------- tracks

  /** One track: its FourCC in mode 2 only, its number, its size but in mode 0, its body. */
  function TrackSpelled(t: Track, mode: byte): seq<byte>
    requires |t.body| < 0x100_0000 || mode == 0
  {
    (if mode == 2 && t.fourcc.Some? then t.fourcc.value else [])
    + ([t.id] + ((if mode == 0 then [] else SI24(|t.body|)) + t.body))
  }

  function TracksSpelled(ts: seq<Track>, mode: byte): seq<byte>
    requires forall t <- ts :: |t.body| < 0x100_0000 || mode == 0
  {
    if ts == [] then [] else TrackSpelled(ts[0], mode) + TracksSpelled(ts[1..], mode)
  }

  predicate TracksFit(ts: seq<Track>, mode: byte) {
    && ts != [] && (mode == 0 ==> |ts| == 1)
    && forall t <- ts :: (t.fourcc.Some? <==> mode == 2) && (mode != 0 ==> |t.body| < 0x100_0000)
  }

  lemma {:induction false} TracksMean(ts: seq<Track>, mode: byte)
    requires TracksFit(ts, mode)
    ensures ParseTracks(TracksSpelled(ts, mode), mode) == Some(ts)
  {
    hide BE;
    TracksBuilt(ts, mode);
    TracksFitOk(ts, mode);
    TracksExact(ts, mode);
  }

  lemma {:induction false} TracksFitOk(ts: seq<Track>, mode: byte)
    requires TracksFit(ts, mode)
    ensures TracksOk(ts, mode)
  {
    if |ts| > 1 {
      TracksFitOk(ts[1..], mode);
    }
  }

  lemma TrackBuilt(t: Track, mode: byte)
    requires |t.body| < 0x100_0000 || mode == 0
    requires t.fourcc.Some? <==> mode == 2
    ensures BuildTrack(t, mode) == TrackSpelled(t, mode)
  {
    hide BE, SI24;
    if mode != 0 {
      SI24Is(|t.body|);
    }
  }

  lemma {:induction false} TracksBuilt(ts: seq<Track>, mode: byte)
    requires TracksFit(ts, mode)
    ensures BuildTracks(ts, mode) == TracksSpelled(ts, mode)
  {
    hide BuildTrack, TrackSpelled;
    TrackBuilt(ts[0], mode);
    if |ts| > 1 {
      TracksBuilt(ts[1..], mode);
    } else {
      assert ts[1..] == [] && TrackSpelled(ts[0], mode) + [] == TrackSpelled(ts[0], mode);
    }
  }

  lemma TracksPrelude(first: byte, mode: byte, inner: byte, fourcc: FourCC, rest: seq<byte>)
    requires 0 < first < 16 && first != 7 && mode < 16 && inner < 16 && inner != first
    ensures ParsePrelude(first, [mode * 16 + inner] + ((if mode == 2 then [] else fourcc) + rest), first)
         == Got(Prelude([], Some(mode), inner, if mode == 2 then None else Some(fourcc)), rest)
  {
    hide ParseChain;
    NibbleRead(mode, inner);
    FourCCRead(fourcc, rest);
    assert [] + rest == rest;
  }

  /** A video message for tracks: mode and their packet type, the shared FourCC but in mode 2, tracks. */
  lemma TracksVideo(ft: byte, mode: byte, inner: byte, fourcc: FourCC, ts: seq<Track>)
    requires ft < 8 && mode < 16 && inner < 16 && inner != 6 && TracksFit(ts, mode)
    ensures ParseVideo([0x86 + ft * 16] + ([mode * 16 + inner] + ((if mode == 2 then [] else fourcc) + TracksSpelled(ts, mode))))
         == Some(VideoTag(ft, 0, None, 0, [], Some(inner), if mode == 2 then None else Some(fourcc), [], Some(Multitrack(mode, ts))))
  {
    hide ParsePrelude, ParseTracks, TracksSpelled;
    ExVideoHead(ft, 6, [mode * 16 + inner] + ((if mode == 2 then [] else fourcc) + TracksSpelled(ts, mode)));
    TracksPrelude(6, mode, inner, fourcc, TracksSpelled(ts, mode));
    TracksMean(ts, mode);
  }

  // ----------------------------------------------------------------------- audio

  lemma ExAudioHead(first: byte, rest: seq<byte>)
    requires first < 16
    ensures ParseAudio([0x90 + first] + rest) == ParseExAudio(first, rest)
  {
    hide ParseExAudio, ParseLegacyAudio;
    NibbleRead(9, first);
    var w: seq<byte> := [0x90 + first] + rest;
    assert w[1..] == rest;
  }

  /** An enhanced audio message: packet type, FourCC, body. */
  lemma ExAudioFrame(pt: byte, fourcc: FourCC, body: seq<byte>)
    requires pt < 16 && pt != 5 && pt != 7
    ensures ParseAudio([0x90 + pt] + (fourcc + body))
         == Some(AudioTag(9, 0, false, false, None, Some(pt), Some(fourcc), body, [], None))
  {
    hide ParsePrelude;
    ExAudioHead(pt, fourcc + body);
    PlainPrelude(pt, fourcc, body, AUDIO_MULTITRACK);
  }

  lemma TracksAudio(mode: byte, inner: byte, fourcc: FourCC, ts: seq<Track>)
    requires mode < 16 && inner < 16 && inner != 5 && TracksFit(ts, mode)
    ensures ParseAudio([0x95] + ([mode * 16 + inner] + ((if mode == 2 then [] else fourcc) + TracksSpelled(ts, mode))))
         == Some(AudioTag(9, 0, false, false, None, Some(inner), if mode == 2 then None else Some(fourcc), [], [], Some(Multitrack(mode, ts))))
  {
    hide ParsePrelude, ParseTracks, TracksSpelled;
    ExAudioHead(5, [mode * 16 + inner] + ((if mode == 2 then [] else fourcc) + TracksSpelled(ts, mode)));
    TracksPrelude(5, mode, inner, fourcc, TracksSpelled(ts, mode));
    TracksMean(ts, mode);
  }

  /** The octet in front of a legacy audio message. */
  function SoundOctet(format: byte, rate: byte, size16: bool, stereo: bool): byte
    requires format < 16 && rate < 4
  {
    format * 16 + rate * 4 + (if size16 then 2 else 0) + (if stereo then 1 else 0)
  }

  /** Format 10 has a packet type; the others are all body. */
  lemma LegacySound(format: byte, rate: byte, size16: bool, stereo: bool, apt: byte, body: seq<byte>)
    requires format < 16 && format != 9 && rate < 4
    ensures var head := [SoundOctet(format, rate, size16, stereo)];
            if format == 10 then
              ParseAudio(head + ([apt] + body)) == Some(AudioTag(10, rate, size16, stereo, Some(apt), None, None, body, [], None))
            else
              ParseAudio(head + body) == Some(AudioTag(format, rate, size16, stereo, None, None, None, body, [], None))
  {
    hide ParseExAudio;
    LegacyHead(format, rate, size16, stereo);
    var head := [SoundOctet(format, rate, size16, stereo)];
    assert (head + ([apt] + body))[1..] == [apt] + body && (head + body)[1..] == body;
  }

  // --------------------------------------------------------------------- defaults

  /** What a tag leaves out is built as: packet type 1, the FourCC of four zeros, a composition time by
      its low 24 bits. */
  lemma VideoTypeDefault(tag: VideoTag)
    requires tag.fourcc.None? && tag.multitrack.None?
    ensures BuildVideo(tag.(avcPacketType := None)) == BuildVideo(tag.(avcPacketType := Some(1)))
  {
    hide BE;
  }

  lemma VideoPacketDefault(tag: VideoTag)
    requires tag.fourcc.Some? || tag.multitrack.Some?
    ensures BuildVideo(tag.(exPacketType := None)) == BuildVideo(tag.(exPacketType := Some(1)))
  {
    hide BE, BuildTracks, BuildChain, BuildPrelude, HeaderType;
    assert VideoPrelude(tag.(exPacketType := None)) == VideoPrelude(tag.(exPacketType := Some(1)));
  }

  lemma VideoFourCCDefault(tag: VideoTag)
    requires tag.multitrack.Some?
    ensures BuildVideo(tag.(fourcc := None)) == BuildVideo(tag.(fourcc := Some([0, 0, 0, 0])))
  {
    hide BE, BuildTracks, BuildChain;
  }

  lemma AudioTypeDefault(tag: AudioTag)
    requires tag.fourcc.None? && tag.multitrack.None?
    ensures BuildAudio(tag.(aacPacketType := None)) == BuildAudio(tag.(aacPacketType := Some(1)))
  {
    hide BuildTracks;
  }

  lemma AudioPacketDefault(tag: AudioTag)
    requires tag.fourcc.Some? || tag.multitrack.Some?
    ensures BuildAudio(tag.(exPacketType := None)) == BuildAudio(tag.(exPacketType := Some(1)))
  {
    hide BuildTracks, BuildChain, BuildPrelude, HeaderType;
    assert AudioPrelude(tag.(exPacketType := None)) == AudioPrelude(tag.(exPacketType := Some(1)));
  }

  lemma AudioFourCCDefault(tag: AudioTag)
    requires tag.multitrack.Some?
    ensures BuildAudio(tag.(fourcc := None)) == BuildAudio(tag.(fourcc := Some([0, 0, 0, 0])))
  {
    hide BuildTracks, BuildChain;
  }

  lemma TrackDefault(t: Track)
    ensures BuildTrack(t.(fourcc := None), 2) == BuildTrack(t.(fourcc := Some([0, 0, 0, 0])), 2)
  {
    hide BE;
  }

  lemma TimeWraps(tag: VideoTag, cts: i32)
    requires (cts - tag.cts) % 0x100_0000 == 0
    ensures BuildVideo(tag.(cts := cts)) == BuildVideo(tag)
  {
    hide BE, BuildTracks, BuildPrelude, NeedsCts;
    assert cts % 0x100_0000 == tag.cts % 0x100_0000;
  }
}
