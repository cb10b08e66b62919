/** Several single-track tags in one multitrack message, and back. */
module FlvMultitrack {
  import opened Bytes
  import opened FlvModel
  import opened FlvRoundTrip
  import opened FlvCanonical

  type Tracks<T> = seq<(byte, T)>

  /** `f` of every element, unless it fails on one. */
  function MapAll<A, B>(f: A -> Option<B>, s: seq<A>): Option<seq<B>> {
    if s == [] then Some([])
    else
      match f(s[0])
      case None => None
      case Some(b) =>
        match MapAll(f, s[1..])
        case None => None
        case Some(bs) => Some([b] + bs)
  }

  lemma {:induction false} MapAllIff<A, B>(f: A -> Option<B>, s: seq<A>, bs: seq<B>)
    ensures MapAll(f, s) == Some(bs) <==> |bs| == |s| && forall i :: 0 <= i < |s| ==> f(s[i]) == Some(bs[i])
  {
    if s == [] {
    } else if bs == [] {
    } else {
      MapAllIff(f, s[1..], bs[1..]);
      assert bs == [bs[0]] + bs[1..];
      if |bs| == |s| && forall i :: 0 <= i < |s| ==> f(s[i]) == Some(bs[i]) {
        assert forall i :: 0 <= i < |s| - 1 ==> f(s[1..][i]) == f(s[i + 1]) && bs[1..][i] == bs[i + 1];
      }
      if MapAll(f, s) == Some(bs) {
        assert MapAll(f, s[1..]) == Some(bs[1..]);
        forall i | 0 <= i < |s|
          ensures f(s[i]) == Some(bs[i])
        {
          if i > 0 {
            assert s[i] == s[1..][i - 1] && bs[i] == bs[1..][i - 1];
          }
        }
      }
    }
  }

  // -------------------------------------------------------------------- the plan

  /** What decides whether a tag can be one track of a message. */
  datatype Face = Face(packetType: Option<byte>, fourcc: Option<FourCC>, plain: bool)

  /** The inner packet type and the FourCC the tracks share. */
  datatype Plan = Plan(inner: byte, shared: Option<FourCC>)

  function PlanMultitrack(mode: byte, faces: seq<Face>, mt: byte): (r: Option<Plan>)
    ensures r.Some? ==>
              && |faces| > 0 && (mode == ONE_TRACK ==> |faces| == 1)
              && r.value.inner != mt && r.value.inner != MOD_EX
              && (r.value.shared.None? <==> mode == MANY_TRACKS_MANY_CODECS)
              && forall i :: 0 <= i < |faces| ==> Fits(faces[i], r.value)
  {
    if faces == [] || (mode == ONE_TRACK && |faces| != 1) || faces[0].packetType.None? then None
    else
      var inner := faces[0].packetType.value;
      var shared := if mode == MANY_TRACKS_MANY_CODECS then None else faces[0].fourcc;
      if inner == mt || inner == MOD_EX then None
      else if exists i :: 0 <= i < |faces| && !Fits(faces[i], Plan(inner, shared)) then None
      else
        assert Fits(faces[0], Plan(inner, shared));
        Some(Plan(inner, shared))
  }

  predicate Fits(f: Face, plan: Plan) {
    && f.plain && f.packetType == Some(plan.inner) && f.fourcc.Some?
    && (plan.shared.Some? ==> f.fourcc == plan.shared)
  }

  function TrackFourCC(shared: Option<FourCC>, fourcc: Option<FourCC>): Option<FourCC> {
    if shared.None? then fourcc else None
  }

  /** The tracks of a message are well formed when each of them is. */
  lemma {:induction false} TracksOkEach(ts: seq<Track>, mode: byte)
    ensures TracksOk(ts, mode) <==> ts != [] && (|ts| > 1 ==> mode != ONE_TRACK) && forall i :: 0 <= i < |ts| ==> TrackOk(ts[i], mode)
  {
    hide TrackOk;
    if |ts| > 1 {
      TracksOkEach(ts[1..], mode);
      assert ts == [ts[0]] + ts[1..];
      assert forall i :: 0 <= i < |ts| - 1 ==> ts[1..][i] == ts[i + 1];
      if forall i :: 0 <= i < |ts| - 1 ==> TrackOk(ts[1..][i], mode) {
        assert forall i :: 1 <= i < |ts| ==> ts[i] == ts[1..][i - 1];
      }
    }
  }

  // ----------------------------------------------------------------------- video

  function VideoFace(t: VideoTag): Face {
    Face(t.exPacketType, t.fourcc, t.multitrack.None? && t.modEx == [])
  }

  function VideoFaces(tracks: Tracks<VideoTag>): seq<Face> {
    seq(|tracks|, i requires 0 <= i < |tracks| => VideoFace(tracks[i].1))
  }

  lemma SoloVideoBuilt(tag: VideoTag)
    requires VideoFace(tag).plain && tag.exPacketType.Some? && tag.fourcc.Some?
    requires tag.exPacketType.value != VIDEO_MULTITRACK && tag.exPacketType.value != MOD_EX
    ensures |BuildVideo(tag)| >= 5
    ensures BuildVideo(tag) == SoloVideo(tag.frameType, tag.exPacketType.value, tag.fourcc.value, BuildVideo(tag)[5..])
  {
    hide BuildCts, NeedsCts;
    var p := VideoPrelude(tag);
    var f := tag.fourcc.value;
    NoChain(OuterType(p, VIDEO_MULTITRACK));
    assert BuildPrelude(p, VIDEO_MULTITRACK) == f;
    var body := BuildCts(NeedsCts(tag.frameType, p.packetType, f), tag.cts) + tag.body;
    var b := BuildVideo(tag);
    var head: seq<byte> := [0x80 + tag.frameType % 8 * 16 + p.packetType % 16];
    assert b == head + (f + body);
    Assoc3(head, f, body);
    SplitAt(head + f, body);
  }

  /** The message of one track on its own. */
  function SoloVideo(frameType: byte, inner: byte, fourcc: FourCC, body: seq<byte>): seq<byte> {
    [0x80 + frameType % 8 * 16 + inner % 16] + (fourcc + body)
  }

  function MuxVideoTrack(t: (byte, VideoTag), shared: Option<FourCC>): Track {
    var wire := BuildVideo(t.1);
    Track(TrackFourCC(shared, t.1.fourcc), t.0, if |wire| >= 5 then wire[5..] else [])
  }

  function MuxVideoTracks(tracks: Tracks<VideoTag>, shared: Option<FourCC>): seq<Track> {
    seq(|tracks|, i requires 0 <= i < |tracks| => MuxVideoTrack(tracks[i], shared))
  }

  function MuxVideo(mode: byte, tracks: Tracks<VideoTag>): Option<VideoTag> {
    match PlanMultitrack(mode, VideoFaces(tracks), VIDEO_MULTITRACK)
    case None => None
    case Some(plan) =>
      var ft := tracks[0].1.frameType;
      if exists i :: 0 <= i < |tracks| && tracks[i].1.frameType != ft then None
      else Some(VideoTag(ft, 0, None, 0, [], Some(plan.inner), plan.shared, [],
                         Some(Multitrack(mode, MuxVideoTracks(tracks, plan.shared)))))
  }

  function DemuxVideoTrack(frameType: byte, inner: byte, shared: Option<FourCC>, t: Track): Option<(byte, VideoTag)> {
    match if t.fourcc.Some? then t.fourcc else shared
    case None => None
    case Some(f) =>
      match ParseVideo(SoloVideo(frameType, inner, f, t.body))
      case None => None
      case Some(tag) => Some((t.id, tag))
  }

  function DemuxVideo(tag: VideoTag): Option<Tracks<VideoTag>> {
    if tag.multitrack.None? || tag.exPacketType.None? then None
    else MapAll(t => DemuxVideoTrack(tag.frameType, tag.exPacketType.value, tag.fourcc, t), tag.multitrack.value.tracks)
  }

  /** Receiving a multitrack video message. */
  function ReceiveVideoTracks(w: seq<byte>): Option<Tracks<VideoTag>> {
    match ParseVideo(w)
    case None => None
    case Some(tag) => DemuxVideo(tag)
  }

  /** Every tag has its place on the wire, and every sized track fits its size field. */
  predicate VideoTracksOk(mode: byte, tracks: Tracks<VideoTag>) {
    forall i :: 0 <= i < |tracks| ==>
      VideoOk(tracks[i].1) && (mode != ONE_TRACK ==> |BuildVideo(tracks[i].1)| < 0x100_0005)
  }

  /** A track on its own parses as `tag` exactly when it is what `tag` is built to. */
  lemma SoloVideoParsed(frameType: byte, inner: byte, f: FourCC, body: seq<byte>, tag: VideoTag)
    requires inner % 16 != MOD_EX && inner % 16 != VIDEO_MULTITRACK
    ensures ParseVideo(SoloVideo(frameType, inner, f, body)) == Some(tag) <==>
            VideoOk(tag) && BuildVideo(tag) == SoloVideo(frameType, inner, f, body)
  {
    hide ParseVideo, BuildVideo, VideoOk;
    var w := SoloVideo(frameType, inner, f, body);
    HeadOctet(frameType % 8, inner % 16);
    if ParseVideo(w).Some? {
      VideoBack(w);
    }
    VideoExact(tag);
  }

  /** A track of a multiplexed message yields the tag it was made of exactly when that tag is well formed. */
  lemma VideoTrackBack(frameType: byte, plan: Plan, t: (byte, VideoTag))
    requires Fits(VideoFace(t.1), plan) && plan.inner != VIDEO_MULTITRACK && plan.inner != MOD_EX
    requires plan.inner < 16 && t.1.frameType == frameType
    ensures DemuxVideoTrack(frameType, plan.inner, plan.shared, MuxVideoTrack(t, plan.shared)) == Some(t) <==> VideoOk(t.1)
  {
    hide ParseVideo, BuildVideo, VideoOk, SoloVideo;
    SoloVideoBuilt(t.1);
    SoloVideoParsed(frameType, plan.inner, t.1.fourcc.value, BuildVideo(t.1)[5..], t.1);
  }

  /** Only one track yields a given tag. */
  lemma VideoTrackUnique(frameType: byte, plan: Plan, t: (byte, VideoTag), tr: Track)
    requires Fits(VideoFace(t.1), plan) && plan.inner != VIDEO_MULTITRACK && plan.inner != MOD_EX && plan.inner < 16
    requires tr.fourcc.Some? <==> plan.shared.None?
    requires DemuxVideoTrack(frameType, plan.inner, plan.shared, tr) == Some(t)
    ensures tr == MuxVideoTrack(t, plan.shared)
  {
    hide ParseVideo, BuildVideo, VideoOk;
    var f := if tr.fourcc.Some? then tr.fourcc.value else plan.shared.value;
    SoloVideoParsed(frameType, plan.inner, f, tr.body, t.1);
    SoloVideoBuilt(t.1);
    var a, b := SoloVideo(frameType, plan.inner, f, tr.body), BuildVideo(t.1);
    assert a[1..5] == f && a[5..] == tr.body;
    assert b[1..5] == t.1.fourcc.value;
  }

  /** The prelude of a multitrack message is read as it was built; only the tracks are in question. */
  lemma OuterVideoRead(outer: VideoTag)
    requires outer.multitrack.Some? && outer.exPacketType.Some? && outer.codecId == 0 && outer.avcPacketType.None?
    requires outer.cts == 0 && outer.body == [] && outer.frameType < 8 && PreludeOk(VideoPrelude(outer), VIDEO_MULTITRACK)
    ensures var m := outer.multitrack.value;
            ParseVideo(BuildVideo(outer)) ==
            match ParseTracks(BuildTracks(m.tracks, m.mode), m.mode)
            case None => None
            case Some(ts) => Some(outer.(multitrack := Some(Multitrack(m.mode, ts))))
  {
    hide ParsePrelude, BuildPrelude, HeaderType, PreludeOk, ParseTracks, BuildTracks;
    var p := VideoPrelude(outer);
    var first := HeaderType(p, VIDEO_MULTITRACK) % 16;
    var rest := BuildTracks(outer.multitrack.value.tracks, outer.multitrack.value.mode);
    HeadOctet(outer.frameType, first);
    assert BuildVideo(outer)[1..] == BuildPrelude(p, VIDEO_MULTITRACK) + rest;
    PreludeExact(p, VIDEO_MULTITRACK, rest);
  }

  /** What is demultiplexed is well formed. */
  lemma DemuxedVideoOk(tag: VideoTag, tracks: Tracks<VideoTag>)
    requires DemuxVideo(tag) == Some(tracks)
    ensures forall i :: 0 <= i < |tracks| ==> VideoOk(tracks[i].1)
  {
    hide ParseVideo, VideoOk, BuildVideo;
    var ts := tag.multitrack.value.tracks;
    var f := t => DemuxVideoTrack(tag.frameType, tag.exPacketType.value, tag.fourcc, t);
    MapAllIff(f, ts, tracks);
    forall i | 0 <= i < |tracks|
      ensures VideoOk(tracks[i].1)
    {
      assert f(ts[i]) == Some(tracks[i]);
      var c := if ts[i].fourcc.Some? then ts[i].fourcc.value else tag.fourcc.value;
      VideoBack(SoloVideo(tag.frameType, tag.exPacketType.value, c, ts[i].body));
    }
  }

  /** Demultiplexing undoes multiplexing exactly when every tag is well formed; and no other tracks
      yield the same tags. */
  lemma DemuxVideoIff(mode: byte, tracks: Tracks<VideoTag>, outer: VideoTag, ts: seq<Track>)
    requires MuxVideo(mode, tracks).Some? && MuxVideo(mode, tracks).value.exPacketType.value < 16
    requires outer == MuxVideo(mode, tracks).value.(modEx := outer.modEx, multitrack := Some(Multitrack(mode, ts)))
    requires forall i :: 0 <= i < |ts| ==> (ts[i].fourcc.Some? <==> mode == MANY_TRACKS_MANY_CODECS)
    ensures DemuxVideo(outer) == Some(tracks) <==>
            ts == MuxVideoTracks(tracks, outer.fourcc) && forall i :: 0 <= i < |tracks| ==> VideoOk(tracks[i].1)
  {
    hide DemuxVideoTrack, MuxVideoTrack, VideoOk, Fits;
    var plan := PlanMultitrack(mode, VideoFaces(tracks), VIDEO_MULTITRACK).value;
    var f := t => DemuxVideoTrack(outer.frameType, plan.inner, plan.shared, t);
    MapAllIff(f, ts, tracks);
    assert forall i :: 0 <= i < |tracks| ==> Fits(VideoFaces(tracks)[i], plan);
    forall i | 0 <= i < |tracks|
      ensures DemuxVideoTrack(outer.frameType, plan.inner, plan.shared, MuxVideoTrack(tracks[i], plan.shared)) == Some(tracks[i])
              <==> VideoOk(tracks[i].1)
    {
      assert Fits(VideoFaces(tracks)[i], plan);
      VideoTrackBack(outer.frameType, plan, tracks[i]);
    }
    if |ts| == |tracks| && forall i :: 0 <= i < |ts| ==> f(ts[i]) == Some(tracks[i]) {
      forall i | 0 <= i < |ts|
        ensures ts[i] == MuxVideoTrack(tracks[i], plan.shared)
      {
        assert f(ts[i]) == Some(tracks[i]) && Fits(VideoFaces(tracks)[i], plan);
        VideoTrackUnique(outer.frameType, plan, tracks[i], ts[i]);
      }
    }
  }

  lemma MuxedVideoFits(mode: byte, tracks: Tracks<VideoTag>)
    requires MuxVideo(mode, tracks).Some?
    ensures var tag := MuxVideo(mode, tracks).value;
            && tag.exPacketType.Some? && tag.exPacketType.value != VIDEO_MULTITRACK && tag.exPacketType.value != MOD_EX
            && (tag.fourcc.None? <==> mode == MANY_TRACKS_MANY_CODECS)
            && tracks != [] && (|tracks| > 1 ==> mode != ONE_TRACK)
            && forall i :: 0 <= i < |tracks| ==>
              && tracks[i].1.frameType == tag.frameType
              && Fits(VideoFace(tracks[i].1), Plan(tag.exPacketType.value, tag.fourcc))
  {
    hide VideoFace, Fits;
    var plan := PlanMultitrack(mode, VideoFaces(tracks), VIDEO_MULTITRACK).value;
    forall i | 0 <= i < |tracks|
      ensures Fits(VideoFace(tracks[i].1), plan)
    {
      assert Fits(VideoFaces(tracks)[i], plan);
    }
  }

  /** The tracks of a multiplexed message fit their size fields. */
  lemma MuxedVideoTracksOk(mode: byte, tracks: Tracks<VideoTag>)
    requires MuxVideo(mode, tracks).Some?
    ensures TracksOk(MuxVideoTracks(tracks, MuxVideo(mode, tracks).value.fourcc), mode) <==>
            forall i :: 0 <= i < |tracks| ==> (mode != ONE_TRACK ==> |BuildVideo(tracks[i].1)| < 0x100_0005)
  {
    hide MuxVideo, BuildVideo, TracksOk, SoloVideo;
    var shared := MuxVideo(mode, tracks).value.fourcc;
    var ts := MuxVideoTracks(tracks, shared);
    MuxedVideoFits(mode, tracks);
    TracksOkEach(ts, mode);
    forall i | 0 <= i < |tracks|
      ensures TrackOk(ts[i], mode) <==> (mode != ONE_TRACK ==> |BuildVideo(tracks[i].1)| < 0x100_0005)
    {
      SoloVideoBuilt(tracks[i].1);
    }
  }

  /** A list of tags that can be multiplexed, whatever modifiers the message is given, comes back
      from its octets as the same list exactly when each tag is well formed and fits. */
  lemma VideoTracksExact(mode: byte, tracks: Tracks<VideoTag>, chain: seq<ModEx>)
    requires mode < 16 && MuxVideo(mode, tracks).Some? && ChainOk(chain)
    ensures ReceiveVideoTracks(BuildVideo(MuxVideo(mode, tracks).value.(modEx := chain))) == Some(tracks) <==> VideoTracksOk(mode, tracks)
  {
    hide ParseVideo, BuildVideo, DemuxVideo, MuxVideo, ParseTracks, BuildTracks, TracksOk, MuxVideoTracks, SoloVideo, Fits;
    var outer := MuxVideo(mode, tracks).value.(modEx := chain);
    MuxedVideoShape(mode, tracks);
    MuxedVideoFits(mode, tracks);
    MuxedVideoTracksOk(mode, tracks);
    var got := ParseVideo(BuildVideo(outer));
    if ReceiveVideoTracks(BuildVideo(outer)) == Some(tracks) {
      DemuxedVideoOk(got.value, tracks);
    }
    if outer.frameType < 8 && outer.exPacketType.value < 16 {
      var ts := outer.multitrack.value.tracks;
      OuterVideoRead(outer);
      TracksExact(ts, mode);
      var back := ParseTracks(BuildTracks(ts, mode), mode);
      if back.Some? {
        TracksBack(BuildTracks(ts, mode), mode);
        TracksOkEach(back.value, mode);
        DemuxVideoIff(mode, tracks, got.value, back.value);
      }
    } else {
      VideoFaceOk(tracks[0].1, Plan(outer.exPacketType.value, outer.fourcc));
    }
  }

  /** Exactly these tags can share a message: at least one, exactly one in mode 0; none of them for
      several tracks or modified; one packet type, that of neither tracks nor a modifier; one frame
      type; a FourCC each, the same but in mode 2. */
  lemma MuxVideoIff(mode: byte, tracks: Tracks<VideoTag>)
    ensures MuxVideo(mode, tracks).Some? <==>
            && |tracks| > 0 && (mode == 0 ==> |tracks| == 1)
            && tracks[0].1.exPacketType.Some? && tracks[0].1.exPacketType.value !in {6, 7}
            && forall i :: 0 <= i < |tracks| ==>
              && tracks[i].1.multitrack.None? && tracks[i].1.modEx == []
              && tracks[i].1.exPacketType == tracks[0].1.exPacketType && tracks[i].1.frameType == tracks[0].1.frameType
              && tracks[i].1.fourcc.Some? && (mode != 2 ==> tracks[i].1.fourcc == tracks[0].1.fourcc)
  {
    var faces := VideoFaces(tracks);
    assert forall i :: 0 <= i < |tracks| ==> faces[i] == VideoFace(tracks[i].1);
  }

  /** And the message says what they share. */
  lemma MuxedVideoSays(mode: byte, tracks: Tracks<VideoTag>)
    requires MuxVideo(mode, tracks).Some?
    ensures var tag := MuxVideo(mode, tracks).value;
            && tag.frameType == tracks[0].1.frameType && tag.exPacketType == tracks[0].1.exPacketType && tag.modEx == []
            && tag.fourcc == (if mode == 2 then None else tracks[0].1.fourcc)
            && tag.multitrack.Some? && tag.multitrack.value.mode == mode && |tag.multitrack.value.tracks| == |tracks|
            && forall i :: 0 <= i < |tracks| ==>
              var t := tag.multitrack.value.tracks[i];
              t.id == tracks[i].0 && t.fourcc == (if mode == 2 then tracks[i].1.fourcc else None)
  {
  }

  lemma VideoFaceOk(tag: VideoTag, plan: Plan)
    requires Fits(VideoFace(tag), plan)
    ensures VideoOk(tag) ==> tag.frameType < 8 && plan.inner < 16
  {
  }

  lemma MuxedVideoShape(mode: byte, tracks: Tracks<VideoTag>)
    requires MuxVideo(mode, tracks).Some?
    ensures var tag := MuxVideo(mode, tracks).value;
            tag == VideoTag(tag.frameType, 0, None, 0, [], tag.exPacketType, tag.fourcc, [],
                            Some(Multitrack(mode, MuxVideoTracks(tracks, tag.fourcc))))
  {
  }

  // ----------------------------------------------------------------------- audio

  function AudioFace(t: AudioTag): Face {
    Face(t.exPacketType, t.fourcc, t.multitrack.None? && t.modEx == [])
  }

  function AudioFaces(tracks: Tracks<AudioTag>): seq<Face> {
    seq(|tracks|, i requires 0 <= i < |tracks| => AudioFace(tracks[i].1))
  }

  lemma SoloAudioBuilt(tag: AudioTag)
    requires AudioFace(tag).plain && tag.exPacketType.Some? && tag.fourcc.Some?
    requires tag.exPacketType.value != AUDIO_MULTITRACK && tag.exPacketType.value != MOD_EX
    ensures |BuildAudio(tag)| >= 5
    ensures BuildAudio(tag) == SoloAudio(tag.exPacketType.value, tag.fourcc.value, BuildAudio(tag)[5..])
  {
    var p := AudioPrelude(tag);
    var f := tag.fourcc.value;
    NoChain(OuterType(p, AUDIO_MULTITRACK));
    assert BuildPrelude(p, AUDIO_MULTITRACK) == f;
    var body := tag.body;
    var b := BuildAudio(tag);
    var head: seq<byte> := [FORMAT_EX_HEADER * 16 + p.packetType % 16];
    assert b == head + (f + body);
    Assoc3(head, f, body);
    SplitAt(head + f, body);
  }

  /** The message of one track on its own. */
  function SoloAudio(inner: byte, fourcc: FourCC, body: seq<byte>): seq<byte> {
    [FORMAT_EX_HEADER * 16 + inner % 16] + (fourcc + body)
  }

  function MuxAudioTrack(t: (byte, AudioTag), shared: Option<FourCC>): Track {
    var wire := BuildAudio(t.1);
    Track(TrackFourCC(shared, t.1.fourcc), t.0, if |wire| >= 5 then wire[5..] else [])
  }

  function MuxAudioTracks(tracks: Tracks<AudioTag>, shared: Option<FourCC>): seq<Track> {
    seq(|tracks|, i requires 0 <= i < |tracks| => MuxAudioTrack(tracks[i], shared))
  }

  function MuxAudio(mode: byte, tracks: Tracks<AudioTag>): Option<AudioTag> {
    match PlanMultitrack(mode, AudioFaces(tracks), AUDIO_MULTITRACK)
    case None => None
    case Some(plan) =>
      Some(AudioTag(FORMAT_EX_HEADER, 0, false, false, None, Some(plan.inner), plan.shared, [], [],
                    Some(Multitrack(mode, MuxAudioTracks(tracks, plan.shared)))))
  }

  function DemuxAudioTrack(inner: byte, shared: Option<FourCC>, t: Track): Option<(byte, AudioTag)> {
    match if t.fourcc.Some? then t.fourcc else shared
    case None => None
    case Some(f) =>
      match ParseAudio(SoloAudio(inner, f, t.body))
      case None => None
      case Some(tag) => Some((t.id, tag))
  }

  function DemuxAudio(tag: AudioTag): Option<Tracks<AudioTag>> {
    if tag.multitrack.None? || tag.exPacketType.None? then None
    else MapAll(t => DemuxAudioTrack(tag.exPacketType.value, tag.fourcc, t), tag.multitrack.value.tracks)
  }

  /** Receiving a multitrack audio message. */
  function ReceiveAudioTracks(w: seq<byte>): Option<Tracks<AudioTag>> {
    match ParseAudio(w)
    case None => None
    case Some(tag) => DemuxAudio(tag)
  }

  /** Every tag has its place on the wire, and every sized track fits its size field. */
  predicate AudioTracksOk(mode: byte, tracks: Tracks<AudioTag>) {
    forall i :: 0 <= i < |tracks| ==>
      AudioOk(tracks[i].1) && (mode != ONE_TRACK ==> |BuildAudio(tracks[i].1)| < 0x100_0005)
  }

  /** A track on its own parses as `tag` exactly when it is what `tag` is built to. */
  lemma SoloAudioParsed(inner: byte, f: FourCC, body: seq<byte>, tag: AudioTag)
    requires inner % 16 != MOD_EX && inner % 16 != AUDIO_MULTITRACK
    ensures ParseAudio(SoloAudio(inner, f, body)) == Some(tag) <==>
            AudioOk(tag) && BuildAudio(tag) == SoloAudio(inner, f, body)
  {
    hide ParseAudio, BuildAudio, AudioOk;
    var w := SoloAudio(inner, f, body);
    NibbleRead(FORMAT_EX_HEADER, inner % 16);
    if ParseAudio(w).Some? {
      AudioBack(w);
    }
    AudioExact(tag);
  }

  /** A track of a multiplexed message yields the tag it was made of exactly when that tag is well formed. */
  lemma AudioTrackBack(plan: Plan, t: (byte, AudioTag))
    requires Fits(AudioFace(t.1), plan) && plan.inner != AUDIO_MULTITRACK && plan.inner != MOD_EX
    requires plan.inner < 16
    ensures DemuxAudioTrack(plan.inner, plan.shared, MuxAudioTrack(t, plan.shared)) == Some(t) <==> AudioOk(t.1)
  {
    hide ParseAudio, BuildAudio, AudioOk, SoloAudio;
    SoloAudioBuilt(t.1);
    SoloAudioParsed(plan.inner, t.1.fourcc.value, BuildAudio(t.1)[5..], t.1);
  }

  /** Only one track yields a given tag. */
  lemma AudioTrackUnique(plan: Plan, t: (byte, AudioTag), tr: Track)
    requires Fits(AudioFace(t.1), plan) && plan.inner != AUDIO_MULTITRACK && plan.inner != MOD_EX && plan.inner < 16
    requires tr.fourcc.Some? <==> plan.shared.None?
    requires DemuxAudioTrack(plan.inner, plan.shared, tr) == Some(t)
    ensures tr == MuxAudioTrack(t, plan.shared)
  {
    hide ParseAudio, BuildAudio, AudioOk;
    var f := if tr.fourcc.Some? then tr.fourcc.value else plan.shared.value;
    SoloAudioParsed(plan.inner, f, tr.body, t.1);
    SoloAudioBuilt(t.1);
    var a, b := SoloAudio(plan.inner, f, tr.body), BuildAudio(t.1);
    assert a[1..5] == f && a[5..] == tr.body;
    assert b[1..5] == t.1.fourcc.value;
  }

  /** The prelude of a multitrack message is read as it was built; only the tracks are in question. */
  lemma OuterAudioRead(outer: AudioTag)
    requires outer.multitrack.Some? && outer.exPacketType.Some? && outer.format == FORMAT_EX_HEADER && outer.rate == 0
    requires !outer.size16 && !outer.stereo && outer.aacPacketType.None? && outer.body == [] && PreludeOk(AudioPrelude(outer), AUDIO_MULTITRACK)
    ensures var m := outer.multitrack.value;
            ParseAudio(BuildAudio(outer)) ==
            match ParseTracks(BuildTracks(m.tracks, m.mode), m.mode)
            case None => None
            case Some(ts) => Some(outer.(multitrack := Some(Multitrack(m.mode, ts))))
  {
    hide ParsePrelude, BuildPrelude, HeaderType, PreludeOk, ParseTracks, BuildTracks;
    var p := AudioPrelude(outer);
    var first := HeaderType(p, AUDIO_MULTITRACK) % 16;
    var rest := BuildTracks(outer.multitrack.value.tracks, outer.multitrack.value.mode);
    NibbleRead(FORMAT_EX_HEADER, first);
    assert BuildAudio(outer)[1..] == BuildPrelude(p, AUDIO_MULTITRACK) + rest;
    PreludeExact(p, AUDIO_MULTITRACK, rest);
  }

  /** What is demultiplexed is well formed. */
  lemma DemuxedAudioOk(tag: AudioTag, tracks: Tracks<AudioTag>)
    requires DemuxAudio(tag) == Some(tracks)
    ensures forall i :: 0 <= i < |tracks| ==> AudioOk(tracks[i].1)
  {
    hide ParseAudio, AudioOk, BuildAudio;
    var ts := tag.multitrack.value.tracks;
    var f := t => DemuxAudioTrack(tag.exPacketType.value, tag.fourcc, t);
    MapAllIff(f, ts, tracks);
    forall i | 0 <= i < |tracks|
      ensures AudioOk(tracks[i].1)
    {
      assert f(ts[i]) == Some(tracks[i]);
      var c := if ts[i].fourcc.Some? then ts[i].fourcc.value else tag.fourcc.value;
      AudioBack(SoloAudio(tag.exPacketType.value, c, ts[i].body));
    }
  }

  /** Demultiplexing undoes multiplexing exactly when every tag is well formed; and no other tracks
      yield the same tags. */
  lemma DemuxAudioIff(mode: byte, tracks: Tracks<AudioTag>, outer: AudioTag, ts: seq<Track>)
    requires MuxAudio(mode, tracks).Some? && MuxAudio(mode, tracks).value.exPacketType.value < 16
    requires outer == MuxAudio(mode, tracks).value.(modEx := outer.modEx, multitrack := Some(Multitrack(mode, ts)))
    requires forall i :: 0 <= i < |ts| ==> (ts[i].fourcc.Some? <==> mode == MANY_TRACKS_MANY_CODECS)
    ensures DemuxAudio(outer) == Some(tracks) <==>
            ts == MuxAudioTracks(tracks, outer.fourcc) && forall i :: 0 <= i < |tracks| ==> AudioOk(tracks[i].1)
  {
    hide DemuxAudioTrack, MuxAudioTrack, AudioOk, Fits;
    var plan := PlanMultitrack(mode, AudioFaces(tracks), AUDIO_MULTITRACK).value;
    var f := t => DemuxAudioTrack(plan.inner, plan.shared, t);
    MapAllIff(f, ts, tracks);
    assert forall i :: 0 <= i < |tracks| ==> Fits(AudioFaces(tracks)[i], plan);
    forall i | 0 <= i < |tracks|
      ensures DemuxAudioTrack(plan.inner, plan.shared, MuxAudioTrack(tracks[i], plan.shared)) == Some(tracks[i])
              <==> AudioOk(tracks[i].1)
    {
      assert Fits(AudioFaces(tracks)[i], plan);
      AudioTrackBack(plan, tracks[i]);
    }
    if |ts| == |tracks| && forall i :: 0 <= i < |ts| ==> f(ts[i]) == Some(tracks[i]) {
      forall i | 0 <= i < |ts|
        ensures ts[i] == MuxAudioTrack(tracks[i], plan.shared)
      {
        assert f(ts[i]) == Some(tracks[i]) && Fits(AudioFaces(tracks)[i], plan);
        AudioTrackUnique(plan, tracks[i], ts[i]);
      }
    }
  }

  lemma MuxedAudioFits(mode: byte, tracks: Tracks<AudioTag>)
    requires MuxAudio(mode, tracks).Some?
    ensures var tag := MuxAudio(mode, tracks).value;
            && tag.exPacketType.Some? && tag.exPacketType.value != AUDIO_MULTITRACK && tag.exPacketType.value != MOD_EX
            && (tag.fourcc.None? <==> mode == MANY_TRACKS_MANY_CODECS)
            && tracks != [] && (|tracks| > 1 ==> mode != ONE_TRACK)
            && forall i :: 0 <= i < |tracks| ==>
              Fits(AudioFace(tracks[i].1), Plan(tag.exPacketType.value, tag.fourcc))
  {
    hide AudioFace, Fits;
    var plan := PlanMultitrack(mode, AudioFaces(tracks), AUDIO_MULTITRACK).value;
    forall i | 0 <= i < |tracks|
      ensures Fits(AudioFace(tracks[i].1), plan)
    {
      assert Fits(AudioFaces(tracks)[i], plan);
    }
  }

  /** The tracks of a multiplexed message fit their size fields. */
  lemma MuxedAudioTracksOk(mode: byte, tracks: Tracks<AudioTag>)
    requires MuxAudio(mode, tracks).Some?
    ensures TracksOk(MuxAudioTracks(tracks, MuxAudio(mode, tracks).value.fourcc), mode) <==>
            forall i :: 0 <= i < |tracks| ==> (mode != ONE_TRACK ==> |BuildAudio(tracks[i].1)| < 0x100_0005)
  {
    hide MuxAudio, BuildAudio, TracksOk, SoloAudio;
    var shared := MuxAudio(mode, tracks).value.fourcc;
    var ts := MuxAudioTracks(tracks, shared);
    MuxedAudioFits(mode, tracks);
    TracksOkEach(ts, mode);
    forall i | 0 <= i < |tracks|
      ensures TrackOk(ts[i], mode) <==> (mode != ONE_TRACK ==> |BuildAudio(tracks[i].1)| < 0x100_0005)
    {
      SoloAudioBuilt(tracks[i].1);
    }
  }

  /** A list of tags that can be multiplexed, whatever modifiers the message is given, comes back
      from its octets as the same list exactly when each tag is well formed and fits. */
  lemma AudioTracksExact(mode: byte, tracks: Tracks<AudioTag>, chain: seq<ModEx>)
    requires mode < 16 && MuxAudio(mode, tracks).Some? && ChainOk(chain)
    ensures ReceiveAudioTracks(BuildAudio(MuxAudio(mode, tracks).value.(modEx := chain))) == Some(tracks) <==> AudioTracksOk(mode, tracks)
  {
    hide ParseAudio, BuildAudio, DemuxAudio, MuxAudio, ParseTracks, BuildTracks, TracksOk, MuxAudioTracks, SoloAudio, Fits;
    var outer := MuxAudio(mode, tracks).value.(modEx := chain);
    MuxedAudioShape(mode, tracks);
    MuxedAudioFits(mode, tracks);
    MuxedAudioTracksOk(mode, tracks);
    var got := ParseAudio(BuildAudio(outer));
    if ReceiveAudioTracks(BuildAudio(outer)) == Some(tracks) {
      DemuxedAudioOk(got.value, tracks);
    }
    if outer.exPacketType.value < 16 {
      var ts := outer.multitrack.value.tracks;
      OuterAudioRead(outer);
      TracksExact(ts, mode);
      var back := ParseTracks(BuildTracks(ts, mode), mode);
      if back.Some? {
        TracksBack(BuildTracks(ts, mode), mode);
        TracksOkEach(back.value, mode);
        DemuxAudioIff(mode, tracks, got.value, back.value);
      }
    } else {
      AudioFaceOk(tracks[0].1, Plan(outer.exPacketType.value, outer.fourcc));
    }
  }

  lemma MuxAudioIff(mode: byte, tracks: Tracks<AudioTag>)
    ensures MuxAudio(mode, tracks).Some? <==>
            && |tracks| > 0 && (mode == 0 ==> |tracks| == 1)
            && tracks[0].1.exPacketType.Some? && tracks[0].1.exPacketType.value !in {5, 7}
            && forall i :: 0 <= i < |tracks| ==>
              && tracks[i].1.multitrack.None? && tracks[i].1.modEx == []
              && tracks[i].1.exPacketType == tracks[0].1.exPacketType
              && tracks[i].1.fourcc.Some? && (mode != 2 ==> tracks[i].1.fourcc == tracks[0].1.fourcc)
  {
    var faces := AudioFaces(tracks);
    assert forall i :: 0 <= i < |tracks| ==> faces[i] == AudioFace(tracks[i].1);
  }

  lemma MuxedAudioSays(mode: byte, tracks: Tracks<AudioTag>)
    requires MuxAudio(mode, tracks).Some?
    ensures var tag := MuxAudio(mode, tracks).value;
            && tag.exPacketType == tracks[0].1.exPacketType && tag.modEx == []
            && tag.fourcc == (if mode == 2 then None else tracks[0].1.fourcc)
            && tag.multitrack.Some? && tag.multitrack.value.mode == mode && |tag.multitrack.value.tracks| == |tracks|
            && forall i :: 0 <= i < |tracks| ==>
              var t := tag.multitrack.value.tracks[i];
              t.id == tracks[i].0 && t.fourcc == (if mode == 2 then tracks[i].1.fourcc else None)
  {
  }

  lemma AudioFaceOk(tag: AudioTag, plan: Plan)
    requires Fits(AudioFace(tag), plan)
    ensures AudioOk(tag) ==> plan.inner < 16
  {
  }

  lemma MuxedAudioShape(mode: byte, tracks: Tracks<AudioTag>)
    requires MuxAudio(mode, tracks).Some?
    ensures var tag := MuxAudio(mode, tracks).value;
            tag == AudioTag(FORMAT_EX_HEADER, 0, false, false, None, tag.exPacketType, tag.fourcc, [], [],
                            Some(Multitrack(mode, MuxAudioTracks(tracks, tag.fourcc))))
  {
  }
}
