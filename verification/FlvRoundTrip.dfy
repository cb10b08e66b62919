/** Exactly which tags survive being built and parsed again. */
module FlvRoundTrip {
  import opened Bytes
  import opened FlvModel

  // ------------------------------------------------------------- the conditions

  predicate EntryOk(e: ModEx) {
    1 <= |e.data| <= 0x1_0000 && e.kind < 16
  }

  predicate ChainOk(chain: seq<ModEx>) {
    chain == [] || (EntryOk(chain[0]) && ChainOk(chain[1..]))
  }

  predicate PreludeOk(p: Prelude, mt: byte) {
    && ChainOk(p.modEx) && p.packetType < 16 && p.packetType != mt
    && match p.mode
       case None => p.packetType != MOD_EX && p.fourcc.Some?
       case Some(m) => m < 16 && (p.fourcc.None? <==> m == MANY_TRACKS_MANY_CODECS)
  }

  predicate TrackOk(t: Track, mode: byte) {
    && (t.fourcc.Some? <==> mode == MANY_TRACKS_MANY_CODECS)
    && (mode != ONE_TRACK ==> |t.body| < 0x100_0000)
  }

  predicate TracksOk(ts: seq<Track>, mode: byte) {
    && ts != [] && TrackOk(ts[0], mode)
    && (|ts| > 1 ==> mode != ONE_TRACK && TracksOk(ts[1..], mode))
  }

  predicate CtsOk(needed: bool, cts: i32) {
    if needed then -0x80_0000 <= cts < 0x80_0000 else cts == 0
  }

  /** Whether a message carries a composition time: coded frames of the three codecs whose FourCC is
      "hvc1", "avc1" or "vvc1", unless the frame is a command. */
  predicate CarriesTime(frameType: byte, packetType: byte, fourcc: FourCC) {
    && frameType != 5 && packetType == 1
    && (fourcc == [0x68, 0x76, 0x63, 0x31] || fourcc == [0x61, 0x76, 0x63, 0x31] || fourcc == [0x76, 0x76, 0x63, 0x31])
  }

  predicate VideoOk(tag: VideoTag) {
    if IsExVideo(tag) then
      && tag.frameType < 8 && tag.codecId == 0 && tag.avcPacketType.None? && tag.exPacketType.Some?
      && PreludeOk(VideoPrelude(tag), VIDEO_MULTITRACK)
      && match tag.multitrack
         case Some(mt) => tag.cts == 0 && tag.body == [] && TracksOk(mt.tracks, mt.mode)
         case None => CtsOk(CarriesTime(tag.frameType, tag.exPacketType.value, tag.fourcc.value), tag.cts)
    else
      var avc := tag.codecId == 7 && tag.frameType != 5;
      && tag.frameType < 8 && tag.codecId < 16 && tag.exPacketType.None? && tag.modEx == []
      && (tag.avcPacketType.Some? <==> avc) && CtsOk(avc, tag.cts)
  }

  predicate AudioOk(tag: AudioTag) {
    if IsExAudio(tag) then
      && tag.format == FORMAT_EX_HEADER && tag.rate == 0 && !tag.size16 && !tag.stereo
      && tag.aacPacketType.None? && tag.exPacketType.Some?
      && PreludeOk(AudioPrelude(tag), AUDIO_MULTITRACK)
      && (tag.multitrack.Some? ==> tag.body == [] && TracksOk(tag.multitrack.value.tracks, tag.multitrack.value.mode))
    else
      && tag.format < 16 && tag.format != FORMAT_EX_HEADER && tag.rate < 4
      && tag.exPacketType.None? && tag.modEx == []
      && (tag.aacPacketType.Some? <==> tag.format == FORMAT_AAC)
  }

  // ------------------------------------------------------------------ modifiers

  function Announced(len: nat): nat {
    if len == 0 then 1 else Min(len, 0x1_0000)
  }

  lemma SizeRead(len: nat, tail: seq<byte>)
    ensures ParseSize(BuildSize(len) + tail) == Got(Announced(len), tail)
  {
    hide BE, UnBE, TakeBE;
    Widths();
    if !(1 <= len <= 255) {
      var v := Min(if len == 0 then 0 else len - 1, 0xFFFF);
      Assoc3([0xFF], BE(2, v), tail);
      TakeBEPrefix(2, v, tail);
    }
  }

  lemma NibbleRead(hi: nat, lo: nat)
    requires hi < 16 && lo < 16
    ensures (hi * 16 + lo) / 16 == hi && (hi * 16 + lo) % 16 == lo
  {
  }

  lemma ModExExact(e: ModEx, next: byte, tail: seq<byte>)
    ensures var r := ParseModEx(BuildModEx(e, next) + tail);
            && (r.Got? && r.value.0 == e <==> EntryOk(e))
            && (EntryOk(e) ==> r == Got((e, next % 16), tail))
  {
    hide ParseSize, BuildSize;
    var n: seq<byte> := [e.kind % 16 * 16 + next % 16];
    Assoc3(BuildSize(|e.data|), e.data + n, tail);
    Assoc3(e.data, n, tail);
    SizeRead(|e.data|, e.data + (n + tail));
    NibbleRead(e.kind % 16, next % 16);
    if 1 <= |e.data| <= 0x1_0000 {
      TakePrefix(e.data, n + tail);
    }
  }

  lemma {:induction false} ChainExact(chain: seq<ModEx>, pt: byte, tail: seq<byte>)
    requires chain != []
    ensures var r := ParseChain(BuildChain(chain, pt) + tail);
            var ok := ChainOk(chain) && pt % 16 != MOD_EX;
            && (r.Got? && r.value.0 == chain <==> ok)
            && (ok ==> r == Got((chain, pt % 16), tail))
  {
    hide ParseModEx, BuildModEx, EntryOk;
    var next := if |chain| > 1 then MOD_EX else pt;
    var others := BuildChain(chain[1..], pt);
    Assoc3(BuildModEx(chain[0], next), others, tail);
    ModExExact(chain[0], next, others + tail);
    var r := ParseModEx(BuildModEx(chain[0], next) + (others + tail));
    if |chain| == 1 {
      assert chain == [chain[0]] && chain[1..] == [] && others + tail == tail;
      if r.Got? && r.value.1 == MOD_EX {
        var c := ParseChain(r.rest);
        if c.Got? {
          ConsIff(r.value.0, c.value.0, chain);
        }
      }
    } else {
      if r.Got? {
        if r.value.1 == MOD_EX {
          var c := ParseChain(r.rest);
          if c.Got? {
            ConsIff(r.value.0, c.value.0, chain);
          }
        }
        if r.value.0 == chain[0] {
          ChainExact(chain[1..], pt, tail);
        }
      }
    }
  }

  // -------------------------------------------------------------------- prelude

  lemma FourCCRead(f: FourCC, tail: seq<byte>)
    ensures ParseFourCC(f + tail) == Got(f, tail)
  {
    TakePrefix(f, tail);
  }

  /** The mode octet and the shared FourCC, once the packet type behind the modifiers is known. */
  lemma ModeExact(p: Prelude, mt: byte, tail: seq<byte>)
    requires 0 < mt < 16
    ensures var r := ParseMode(OuterType(p, mt) % 16, BuildMode(p) + (BuildSharedFourCC(p) + tail), mt);
            var r1 := if r.Got? then ParseSharedFourCC(r.value.0, r.rest) else Short;
            var ok := && p.packetType < 16 && p.packetType != mt
                      && match p.mode
                         case None => p.fourcc.Some?
                         case Some(m) => m < 16 && (p.fourcc.None? <==> m == MANY_TRACKS_MANY_CODECS);
            && (r.Got? && r1.Got? && r.value == (p.mode, p.packetType) && r1.value == p.fourcc <==> ok)
            && (ok ==> r1.rest == tail)
  {
    hide ParseFourCC;
    var f := BuildSharedFourCC(p);
    if p.mode.Some? {
      NibbleRead(p.mode.value % 16, p.packetType % 16);
      TakeBytePrefix(p.mode.value % 16 * 16 + p.packetType % 16, f + tail);
      if p.mode.value != MANY_TRACKS_MANY_CODECS {
        FourCCRead(f, tail);
      } else {
        assert f + tail == tail;
      }
    } else {
      assert BuildMode(p) + (f + tail) == f + tail;
      FourCCRead(f, tail);
    }
  }

  lemma PreludeExact(p: Prelude, mt: byte, tail: seq<byte>)
    requires 0 < mt < 16 && mt != MOD_EX
    ensures var r := ParsePrelude(HeaderType(p, mt) % 16, BuildPrelude(p, mt) + tail, mt);
            && (r.Got? && r.value == p <==> PreludeOk(p, mt))
            && (PreludeOk(p, mt) ==> r.rest == tail)
  {
    hide ParseChain, BuildChain, ParseMode, ParseSharedFourCC, BuildMode, BuildSharedFourCC, ChainOk;
    var chain, more := BuildChain(p.modEx, OuterType(p, mt)), BuildMode(p) + BuildSharedFourCC(p);
    Assoc3(chain, more, tail);
    Assoc3(BuildMode(p), BuildSharedFourCC(p), tail);
    ModeExact(p, mt, tail);
    NoChain(OuterType(p, mt));
    if p.modEx == [] {
      assert chain + (more + tail) == more + tail;
    } else {
      ChainExact(p.modEx, OuterType(p, mt), more + tail);
    }
  }

  lemma NoChain(pt: byte)
    ensures BuildChain([], pt) == [] && ChainOk([])
  {
  }

  // --------------------------------------------------------------------- tracks

  lemma SizedTrackExact(t: Track, mode: byte, tail: seq<byte>)
    requires mode != ONE_TRACK
    ensures var r := ParseTrack(BuildTrack(t, mode) + tail, mode);
            && (r.Got? && r.value == t <==> TrackOk(t, mode))
            && (TrackOk(t, mode) ==> r.rest == tail)
  {
    hide BE, UnBE, TakeBE, ParseFourCC;
    Widths();
    var f: seq<byte> := if mode == MANY_TRACKS_MANY_CODECS then (if t.fourcc.Some? then t.fourcc.value else ZERO_FOURCC) else [];
    var size := BE(3, |t.body|);
    Assoc3(f, [t.id] + (size + t.body), tail);
    Assoc3([t.id], size + t.body, tail);
    Assoc3(size, t.body, tail);
    var w2 := size + (t.body + tail);
    if mode == MANY_TRACKS_MANY_CODECS {
      FourCCRead(f, [t.id] + w2);
    } else {
      assert f + ([t.id] + w2) == [t.id] + w2;
    }
    TakeBytePrefix(t.id, w2);
    BEMod(3, |t.body|);
    TakeBEPrefix(3, |t.body| % 0x100_0000, t.body + tail);
    if |t.body| < 0x100_0000 {
      TakePrefix(t.body, tail);
    }
  }

  lemma OnlyTrackExact(t: Track)
    ensures var r := ParseTrack(BuildTrack(t, ONE_TRACK), ONE_TRACK);
            r == Got(Track(None, t.id, t.body), [])
  {
    assert [] + ([t.id] + ([] + t.body)) == [t.id] + t.body;
    TakeBytePrefix(t.id, t.body);
  }

  lemma {:induction false} TracksExact(ts: seq<Track>, mode: byte)
    ensures ParseTracks(BuildTracks(ts, mode), mode) == Some(ts) <==> TracksOk(ts, mode)
  {
    hide ParseTrack, BuildTrack, TrackOk;
    if ts == [] {
      NoTrack(mode);
    } else if mode == ONE_TRACK {
      OnlyTrackExact(ts[0]);
      OneTrackOk(ts[0]);
      assert |ts| == 1 ==> ts == [ts[0]];
    } else {
      var others := BuildTracks(ts[1..], mode);
      SizedTrackExact(ts[0], mode, others);
      TracksExact(ts[1..], mode);
      var r := ParseTrack(BuildTracks(ts, mode), mode);
      if |ts| == 1 {
        assert ts == [ts[0]] && others == [];
        if r.Got? && r.rest != [] {
          var more := ParseTracks(r.rest, mode);
          if more.Some? {
            ConsIff(r.value, more.value, ts);
            ParsedTracks(r.rest, mode);
          }
        }
      } else {
        BuiltTracks(ts[1..], mode);
        if r.Got? && r.rest != [] {
          var more := ParseTracks(r.rest, mode);
          if more.Some? {
            ConsIff(r.value, more.value, ts);
          }
        }
      }
    }
  }

  lemma NoTrack(mode: byte)
    ensures ParseTrack([], mode) == Short
  {
  }

  lemma OneTrackOk(t: Track)
    ensures TrackOk(t, ONE_TRACK) <==> t.fourcc.None?
  {
  }

  lemma ParsedTracks(w: seq<byte>, mode: byte)
    ensures ParseTracks(w, mode).Some? ==> ParseTracks(w, mode).value != []
  {
    hide ParseTrack;
  }

  lemma BuiltTracks(ts: seq<Track>, mode: byte)
    requires ts != []
    ensures BuildTracks(ts, mode) != []
  {
  }

  // ---------------------------------------------------------------------- video

  lemma CtsExact(needed: bool, cts: i32, tail: seq<byte>)
    ensures var r := ParseCts(needed, BuildCts(needed, cts) + tail);
            && r.Got? && r.rest == tail && (r.value == cts <==> CtsOk(needed, cts))
  {
    hide BE, UnBE;
    Widths();
    if needed {
      TakeBEPrefix(3, cts % 0x100_0000, tail);
    } else {
      assert BuildCts(false, cts) + tail == tail;
    }
  }

  lemma TimeNeeded(frameType: byte, packetType: byte, fourcc: FourCC)
    ensures NeedsCts(frameType, packetType, fourcc) <==> CarriesTime(frameType, packetType, fourcc)
  {
  }

  lemma HeadOctet(hi: nat, lo: nat)
    requires hi < 8 && lo < 16
    ensures var b := 0x80 + hi * 16 + lo;
            b < 256 && b / 16 % 8 == hi && b % 16 == lo
  {
  }

  lemma ExVideoExact(tag: VideoTag)
    requires IsExVideo(tag)
    ensures ParseVideo(BuildVideo(tag)) == Some(tag) <==> VideoOk(tag)
  {
    hide ParsePrelude, BuildPrelude, HeaderType, PreludeOk, ParseTracks, BuildTracks, TracksOk, ParseCts, BuildCts, CtsOk,
      NeedsCts, CarriesTime;
    var p := VideoPrelude(tag);
    var first := HeaderType(p, VIDEO_MULTITRACK) % 16;
    var rest := match tag.multitrack
                case Some(mt) => BuildTracks(mt.tracks, mt.mode)
                case None => BuildCts(NeedsCts(tag.frameType, p.packetType, tag.fourcc.value), tag.cts) + tag.body;
    var w := BuildPrelude(p, VIDEO_MULTITRACK) + rest;
    HeadOctet(tag.frameType % 8, first);
    assert BuildVideo(tag)[1..] == w;
    assert ParseVideo(BuildVideo(tag)) == ParseExVideo(tag.frameType % 8, first, w);
    PreludeExact(p, VIDEO_MULTITRACK, rest);
    match tag.multitrack {
      case Some(mt) => TracksExact(mt.tracks, mt.mode);
      case None =>
        TimeNeeded(tag.frameType, p.packetType, tag.fourcc.value);
        CtsExact(NeedsCts(tag.frameType, p.packetType, tag.fourcc.value), tag.cts, tag.body);
        PreludeOkSingle(p, VIDEO_MULTITRACK);
    }
  }

  lemma PreludeOkSingle(p: Prelude, mt: byte)
    requires p.mode.None?
    ensures PreludeOk(p, mt) ==> p.fourcc.Some?
  {
  }

  lemma LegacyVideoExact(tag: VideoTag)
    requires !IsExVideo(tag)
    ensures ParseVideo(BuildVideo(tag)) == Some(tag) <==> VideoOk(tag)
  {
    hide ParsePrelude, ParseTracks, ParseCts, BuildCts, CtsOk, NeedsCts, PreludeOk;
    var ft, codec := tag.frameType % 16, tag.codecId % 16;
    NibbleRead(ft, codec);
    var w := BuildVideo(tag)[1..];
    if ft >= 8 {
      ParsedExVideo(ft * 16 + codec - 0x80, w);
    } else {
      assert ParseVideo(BuildVideo(tag)) == ParseLegacyVideo(ft, codec, w);
      if tag.codecId == CODEC_AVC && tag.frameType != FRAME_COMMAND {
        var apt := if tag.avcPacketType.Some? then tag.avcPacketType.value else AVC_NALU;
        assert w == [apt] + (BuildCts(true, tag.cts) + tag.body);
        TakeBytePrefix(apt, BuildCts(true, tag.cts) + tag.body);
        CtsExact(true, tag.cts, tag.body);
      } else {
        assert w == tag.body;
        NoCts(tag.cts);
      }
    }
  }

  lemma NoCts(cts: i32)
    ensures CtsOk(false, cts) <==> cts == 0
  {
  }

  /** A header octet with the top bit set never yields a legacy tag. */
  lemma ParsedExVideo(low: nat, w: seq<byte>)
    requires low < 0x80
    ensures var r := ParseVideo([0x80 + low] + w);
            r.Some? ==> IsExVideo(r.value)
  {
    hide ParsePrelude, ParseTracks, ParseCts;
  }

  /** A video tag comes back exactly when each of its fields has its place on the wire. */
  lemma VideoExact(tag: VideoTag)
    ensures ParseVideo(BuildVideo(tag)) == Some(tag) <==> VideoOk(tag)
  {
    hide ParseVideo, BuildVideo, VideoOk;
    if IsExVideo(tag) {
      ExVideoExact(tag);
    } else {
      LegacyVideoExact(tag);
    }
  }

  // ---------------------------------------------------------------------- audio

  lemma ExAudioExact(tag: AudioTag)
    requires IsExAudio(tag)
    ensures ParseAudio(BuildAudio(tag)) == Some(tag) <==> AudioOk(tag)
  {
    hide ParsePrelude, BuildPrelude, HeaderType, PreludeOk, ParseTracks, BuildTracks, TracksOk;
    var p := AudioPrelude(tag);
    var first := HeaderType(p, AUDIO_MULTITRACK) % 16;
    var rest := match tag.multitrack
                case Some(mt) => BuildTracks(mt.tracks, mt.mode)
                case None => tag.body;
    var w := BuildPrelude(p, AUDIO_MULTITRACK) + rest;
    NibbleRead(FORMAT_EX_HEADER, first);
    assert BuildAudio(tag)[1..] == w;
    assert ParseAudio(BuildAudio(tag)) == ParseExAudio(first, w);
    PreludeExact(p, AUDIO_MULTITRACK, rest);
    match tag.multitrack {
      case Some(mt) => TracksExact(mt.tracks, mt.mode);
      case None =>
    }
  }

  lemma LegacyHead(format: nat, rate: nat, size16: bool, stereo: bool)
    requires format < 16 && rate < 4
    ensures var b := format * 16 + rate * 4 + (if size16 then 2 else 0) + (if stereo then 1 else 0);
            && b < 256 && b / 16 == format && b / 4 % 4 == rate
            && (b / 2 % 2 == 1 <==> size16) && (b % 2 == 1 <==> stereo)
  {
  }

  lemma LegacyAudioExact(tag: AudioTag)
    requires !IsExAudio(tag)
    ensures ParseAudio(BuildAudio(tag)) == Some(tag) <==> AudioOk(tag)
  {
    hide ParsePrelude, ParseTracks, PreludeOk;
    LegacyHead(tag.format % 16, tag.rate % 4, tag.size16, tag.stereo);
    var w := BuildAudio(tag)[1..];
    if tag.format % 16 == FORMAT_EX_HEADER {
      ParsedExAudio(BuildAudio(tag)[0] % 16, w);
    } else {
      if tag.format == FORMAT_AAC {
        var apt := if tag.aacPacketType.Some? then tag.aacPacketType.value else AAC_RAW;
        assert w == [apt] + tag.body;
        TakeBytePrefix(apt, tag.body);
      } else {
        assert w == tag.body;
      }
    }
  }

  lemma ParsedExAudio(first: byte, w: seq<byte>)
    requires first < 16
    ensures ParseExAudio(first, w).Some? ==> IsExAudio(ParseExAudio(first, w).value)
  {
    hide ParseChain, ParseMode, ParseTracks;
  }

  /** An audio tag comes back exactly when each of its fields has its place on the wire. */
  lemma AudioExact(tag: AudioTag)
    ensures ParseAudio(BuildAudio(tag)) == Some(tag) <==> AudioOk(tag)
  {
    hide ParseAudio, BuildAudio, AudioOk;
    if IsExAudio(tag) {
      ExAudioExact(tag);
    } else {
      LegacyAudioExact(tag);
    }
  }
}
