/** Audio and video tags: the legacy one-byte headers, the enhanced headers with their prelude of
    modifiers and tracks, and the bodies of multitrack messages. */
module FlvModel {
  import opened Bytes

  type FourCC = s: seq<byte> | |s| == 4 witness [0, 0, 0, 0]
  type i32 = n: int | -0x8000_0000 <= n < 0x8000_0000

  const MOD_EX: byte := 7
  const VIDEO_MULTITRACK: byte := 6
  const AUDIO_MULTITRACK: byte := 5
  const CODED_FRAMES: byte := 1
  const METADATA: byte := 4
  const FRAME_COMMAND: byte := 5
  const CODEC_AVC: byte := 7
  const AVC_NALU: byte := 1
  const FORMAT_EX_HEADER: byte := 9
  const FORMAT_AAC: byte := 10
  const AAC_RAW: byte := 1
  const ONE_TRACK: byte := 0
  const MANY_TRACKS_MANY_CODECS: byte := 2
  const HEVC: FourCC := [104, 118, 99, 49]
  const AVC: FourCC := [97, 118, 99, 49]
  const VVC: FourCC := [118, 118, 99, 49]
  const ZERO_FOURCC: FourCC := [0, 0, 0, 0]

  datatype ModEx = ModEx(kind: byte, data: seq<byte>)

  datatype Track = Track(fourcc: Option<FourCC>, id: byte, body: seq<byte>)

  datatype Multitrack = Multitrack(mode: byte, tracks: seq<Track>)

  datatype VideoTag = VideoTag(
    frameType: byte, codecId: byte, avcPacketType: Option<byte>, cts: i32, body: seq<byte>,
    exPacketType: Option<byte>, fourcc: Option<FourCC>, modEx: seq<ModEx>, multitrack: Option<Multitrack>)

  datatype AudioTag = AudioTag(
    format: byte, rate: byte, size16: bool, stereo: bool, aacPacketType: Option<byte>,
    exPacketType: Option<byte>, fourcc: Option<FourCC>, body: seq<byte>, modEx: seq<ModEx>,
    multitrack: Option<Multitrack>)

  // ------------------------------------------------------------- the modifier chain

  /** The size of a modifier's data, less one: one octet, or two behind an escape. */
  function ParseSize(w: seq<byte>): (r: Got<nat>)
    ensures r.Got? ==> 1 <= r.value <= 0x1_0000 && |r.rest| < |w|
  {
    var (b, w1) :- TakeByte(w);
    if b < 255 then Got(b + 1, w1)
    else
      Widths();
      var (v, w2) :- TakeBE(w1, 2);
      Got(v + 1, w2)
  }

  /** One modifier and the packet type behind it. */
  function ParseModEx(w: seq<byte>): (r: Got<(ModEx, byte)>)
    ensures r.Got? ==> |r.rest| < |w| && r.value.1 < 16
  {
    var (size, w1) :- ParseSize(w);
    var (data, w2) :- Take(w1, size);
    var (nibble, w3) :- TakeByte(w2);
    Got((ModEx(nibble / 16, data), nibble % 16), w3)
  }

  /** Modifiers as long as the packet type is that of a modifier. */
  function ParseChain(w: seq<byte>): (r: Got<(seq<ModEx>, byte)>)
    ensures r.Got? ==> r.value.0 != [] && r.value.1 < 16 && r.value.1 != MOD_EX && |r.rest| < |w|
    decreases |w|
  {
    var (e, w1) :- ParseModEx(w);
    if e.1 != MOD_EX then Got(([e.0], e.1), w1)
    else
      var (c, w2) :- ParseChain(w1);
      Got(([e.0] + c.0, c.1), w2)
  }

  function BuildSize(len: nat): seq<byte> {
    if 1 <= len <= 255 then [len - 1]
    else [0xFF] + BE(2, Min(if len == 0 then 0 else len - 1, 0xFFFF))
  }

  /** A modifier followed by the packet type `next`. */
  function BuildModEx(e: ModEx, next: byte): seq<byte> {
    BuildSize(|e.data|) + (e.data + [e.kind % 16 * 16 + next % 16])
  }

  function BuildChain(chain: seq<ModEx>, packetType: byte): seq<byte> {
    if chain == [] then []
    else BuildModEx(chain[0], if |chain| > 1 then MOD_EX else packetType) + BuildChain(chain[1..], packetType)
  }

  // ------------------------------------------------------------------- the tracks

  function ParseTrack(w: seq<byte>, mode: byte): (r: Got<Track>)
    ensures r.Got? ==> |r.rest| < |w| && (mode == ONE_TRACK ==> r.rest == [])
  {
    var (fourcc, w1) :- ParseTrackFourCC(w, mode);
    var (id, w2) :- TakeByte(w1);
    if mode == ONE_TRACK then Got(Track(fourcc, id, w2), [])
    else
      var (size, w3) :- TakeBE(w2, 3);
      var (body, w4) :- Take(w3, size);
      Got(Track(fourcc, id, body), w4)
  }

  function ParseTrackFourCC(w: seq<byte>, mode: byte): (r: Got<Option<FourCC>>)
    ensures r.Got? ==> |r.rest| <= |w|
  {
    if mode == MANY_TRACKS_MANY_CODECS then
      var (f, w1) :- ParseFourCC(w);
      Got(Some(f), w1)
    else Got(None, w)
  }

  function ParseFourCC(w: seq<byte>): (r: Got<FourCC>)
    ensures r.Got? ==> w == r.value + r.rest
  {
    var (f, w1) :- Take(w, 4);
    Got(f, w1)
  }

  /** At least one track, up to the end. */
  function ParseTracks(w: seq<byte>, mode: byte): Option<seq<Track>>
    decreases |w|
  {
    match ParseTrack(w, mode)
    case Short => None
    case Got(t, w1) =>
      if w1 == [] then Some([t])
      else
        match ParseTracks(w1, mode)
        case None => None
        case Some(ts) => Some([t] + ts)
  }

  function BuildTrack(t: Track, mode: byte): seq<byte> {
    (if mode == MANY_TRACKS_MANY_CODECS then (if t.fourcc.Some? then t.fourcc.value else ZERO_FOURCC) else [])
    + ([t.id] + ((if mode == ONE_TRACK then [] else BE(3, |t.body|)) + t.body))
  }

  /** A message for one track carries the first one only. */
  function BuildTracks(ts: seq<Track>, mode: byte): seq<byte> {
    if ts == [] then []
    else if mode == ONE_TRACK then BuildTrack(ts[0], mode)
    else BuildTrack(ts[0], mode) + BuildTracks(ts[1..], mode)
  }

  // ------------------------------------------------------------------ the prelude

  /** What stands between the header octet of an enhanced tag and its body. */
  datatype Prelude = Prelude(modEx: seq<ModEx>, mode: Option<byte>, packetType: byte, fourcc: Option<FourCC>)

  /** `first` is the packet type in the header octet, `mt` the one that announces tracks. */
  function ParsePrelude(first: byte, w: seq<byte>, mt: byte): (r: Got<Prelude>)
    requires first < 16
    ensures r.Got? && r.value.mode.None? ==> r.value.fourcc.Some?
  {
    var (c, w1) :- if first == MOD_EX then ParseChain(w) else Got(([], first), w);
    var (m, w2) :- ParseMode(c.1, w1, mt);
    var (f, w3) :- ParseSharedFourCC(m.0, w2);
    Got(Prelude(c.0, m.0, m.1, f), w3)
  }

  /** The mode of a multitrack message and the packet type of its tracks, which must not announce
      tracks again. */
  function ParseMode(pt: byte, w: seq<byte>, mt: byte): Got<(Option<byte>, byte)> {
    if pt == mt then
      var (nibble, w1) :- TakeByte(w);
      if nibble % 16 == mt then Short else Got((Some(nibble / 16), nibble % 16), w1)
    else Got((None, pt), w)
  }

  function ParseSharedFourCC(mode: Option<byte>, w: seq<byte>): Got<Option<FourCC>> {
    if mode == Some(MANY_TRACKS_MANY_CODECS) then Got(None, w)
    else
      var (f, w1) :- ParseFourCC(w);
      Got(Some(f), w1)
  }

  /** The packet type behind the modifiers. */
  function OuterType(p: Prelude, mt: byte): byte {
    if p.mode.Some? then mt else p.packetType
  }

  /** The packet type in the header octet. */
  function HeaderType(p: Prelude, mt: byte): byte {
    if p.modEx == [] then OuterType(p, mt) else MOD_EX
  }

  function BuildMode(p: Prelude): seq<byte> {
    if p.mode.Some? then [p.mode.value % 16 * 16 + p.packetType % 16] else []
  }

  function BuildSharedFourCC(p: Prelude): seq<byte> {
    if p.mode == Some(MANY_TRACKS_MANY_CODECS) then []
    else if p.fourcc.Some? then p.fourcc.value else ZERO_FOURCC
  }

  function BuildPrelude(p: Prelude, mt: byte): seq<byte> {
    BuildChain(p.modEx, OuterType(p, mt)) + (BuildMode(p) + BuildSharedFourCC(p))
  }

  // ----------------------------------------------------------------------- video

  function SignExtend24(v: nat): i32
    requires v < 0x100_0000
  {
    if v >= 0x80_0000 then v - 0x100_0000 else v
  }

  predicate NeedsCts(frameType: byte, packetType: byte, fourcc: FourCC) {
    && !(frameType == FRAME_COMMAND && packetType != METADATA)
    && packetType == CODED_FRAMES && (fourcc == HEVC || fourcc == AVC || fourcc == VVC)
  }

  function ParseCts(needed: bool, w: seq<byte>): Got<i32> {
    if needed then
      Widths();
      var (v, w1) :- TakeBE(w, 3);
      Got(SignExtend24(v), w1)
    else Got(0, w)
  }

  function BuildCts(needed: bool, cts: i32): seq<byte> {
    if needed then BE(3, cts % 0x100_0000) else []
  }

  function ParseVideo(w: seq<byte>): Option<VideoTag> {
    if w == [] then None
    else if w[0] >= 0x80 then ParseExVideo(w[0] / 16 % 8, w[0] % 16, w[1..])
    else ParseLegacyVideo(w[0] / 16, w[0] % 16, w[1..])
  }

  function ParseExVideo(frameType: byte, first: byte, w: seq<byte>): Option<VideoTag>
    requires first < 16
  {
    match ParsePrelude(first, w, VIDEO_MULTITRACK)
    case Short => None
    case Got(p, w1) =>
      if p.mode.Some? then
        match ParseTracks(w1, p.mode.value)
        case None => None
        case Some(ts) =>
          Some(VideoTag(frameType, 0, None, 0, [], Some(p.packetType), p.fourcc, p.modEx, Some(Multitrack(p.mode.value, ts))))
      else
        var fourcc := if p.fourcc.Some? then p.fourcc.value else ZERO_FOURCC;
        match ParseCts(NeedsCts(frameType, p.packetType, fourcc), w1)
        case Short => None
        case Got(cts, body) =>
          Some(VideoTag(frameType, 0, None, cts, body, Some(p.packetType), Some(fourcc), p.modEx, None))
  }

  function ParseLegacyVideo(frameType: byte, codecId: byte, w: seq<byte>): Option<VideoTag> {
    if frameType == FRAME_COMMAND || codecId != CODEC_AVC then
      Some(VideoTag(frameType, codecId, None, 0, w, None, None, [], None))
    else
      match TakeByte(w)
      case Short => None
      case Got(apt, w1) =>
        match ParseCts(true, w1)
        case Short => None
        case Got(cts, body) => Some(VideoTag(frameType, codecId, Some(apt), cts, body, None, None, [], None))
  }

  function VideoPrelude(tag: VideoTag): Prelude {
    Prelude(tag.modEx, if tag.multitrack.Some? then Some(tag.multitrack.value.mode) else None,
            if tag.exPacketType.Some? then tag.exPacketType.value else CODED_FRAMES, tag.fourcc)
  }

  predicate IsExVideo(tag: VideoTag) {
    tag.fourcc.Some? || tag.multitrack.Some?
  }

  function BuildVideo(tag: VideoTag): seq<byte> {
    if IsExVideo(tag) then BuildExVideo(tag) else BuildLegacyVideo(tag)
  }

  function BuildExVideo(tag: VideoTag): seq<byte>
    requires IsExVideo(tag)
  {
    var p := VideoPrelude(tag);
    [0x80 + tag.frameType % 8 * 16 + HeaderType(p, VIDEO_MULTITRACK) % 16]
    + (BuildPrelude(p, VIDEO_MULTITRACK)
       + (match tag.multitrack
          case Some(mt) => BuildTracks(mt.tracks, mt.mode)
          case None => BuildCts(NeedsCts(tag.frameType, p.packetType, tag.fourcc.value), tag.cts) + tag.body))
  }

  function BuildLegacyVideo(tag: VideoTag): seq<byte> {
    [tag.frameType % 16 * 16 + tag.codecId % 16]
    + (if tag.codecId == CODEC_AVC && tag.frameType != FRAME_COMMAND
       then [if tag.avcPacketType.Some? then tag.avcPacketType.value else AVC_NALU] + (BuildCts(true, tag.cts) + tag.body)
       else tag.body)
  }

  // ----------------------------------------------------------------------- audio

  function ParseAudio(w: seq<byte>): Option<AudioTag> {
    if w == [] then None
    else if w[0] / 16 == FORMAT_EX_HEADER then ParseExAudio(w[0] % 16, w[1..])
    else ParseLegacyAudio(w[0] / 16, w[0] / 4 % 4, w[0] / 2 % 2 == 1, w[0] % 2 == 1, w[1..])
  }

  function ParseExAudio(first: byte, w: seq<byte>): Option<AudioTag>
    requires first < 16
  {
    match ParsePrelude(first, w, AUDIO_MULTITRACK)
    case Short => None
    case Got(p, w1) =>
      if p.mode.Some? then
        match ParseTracks(w1, p.mode.value)
        case None => None
        case Some(ts) =>
          Some(AudioTag(FORMAT_EX_HEADER, 0, false, false, None, Some(p.packetType), p.fourcc, [], p.modEx,
                        Some(Multitrack(p.mode.value, ts))))
      else
        Some(AudioTag(FORMAT_EX_HEADER, 0, false, false, None, Some(p.packetType), p.fourcc, w1, p.modEx, None))
  }

  function ParseLegacyAudio(format: byte, rate: byte, size16: bool, stereo: bool, w: seq<byte>): Option<AudioTag> {
    if format != FORMAT_AAC then Some(AudioTag(format, rate, size16, stereo, None, None, None, w, [], None))
    else
      match TakeByte(w)
      case Short => None
      case Got(apt, body) => Some(AudioTag(format, rate, size16, stereo, Some(apt), None, None, body, [], None))
  }

  function AudioPrelude(tag: AudioTag): Prelude {
    Prelude(tag.modEx, if tag.multitrack.Some? then Some(tag.multitrack.value.mode) else None,
            if tag.exPacketType.Some? then tag.exPacketType.value else CODED_FRAMES, tag.fourcc)
  }

  predicate IsExAudio(tag: AudioTag) {
    tag.fourcc.Some? || tag.multitrack.Some?
  }

  function BuildAudio(tag: AudioTag): seq<byte> {
    if IsExAudio(tag) then BuildExAudio(tag) else BuildLegacyAudio(tag)
  }

  function BuildExAudio(tag: AudioTag): seq<byte>
    requires IsExAudio(tag)
  {
    var p := AudioPrelude(tag);
    [FORMAT_EX_HEADER * 16 + HeaderType(p, AUDIO_MULTITRACK) % 16]
    + (BuildPrelude(p, AUDIO_MULTITRACK)
       + (match tag.multitrack
          case Some(mt) => BuildTracks(mt.tracks, mt.mode)
          case None => tag.body))
  }

  function BuildLegacyAudio(tag: AudioTag): seq<byte> {
    [tag.format % 16 * 16 + tag.rate % 4 * 4 + (if tag.size16 then 2 else 0) + (if tag.stereo then 1 else 0)]
    + (if tag.format == FORMAT_AAC
       then [if tag.aacPacketType.Some? then tag.aacPacketType.value else AAC_RAW] + tag.body
       else tag.body)
  }
}
