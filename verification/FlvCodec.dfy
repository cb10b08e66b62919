/** The loops of the tag codec: modifier chains and track lists, parsed along a buffer and appended to
    one, and tags gathered into a multitrack message and taken out of it. */
module FlvCodec {
  import opened Bytes
  import opened FlvModel
  import opened FlvRoundTrip
  import opened FlvMultitrack

  /** A chain preceded by modifiers parsed before it. */
  ghost function ChainAfter(out: seq<ModEx>, g: Got<(seq<ModEx>, byte)>): Got<(seq<ModEx>, byte)> {
    match g
    case Got(c, w) => Got((out + c.0, c.1), w)
    case Short => Short
  }

  lemma ChainAfterNothing(g: Got<(seq<ModEx>, byte)>)
    ensures ChainAfter([], g) == g
  {
    if g.Got? {
      assert [] + g.value.0 == g.value.0;
    }
  }

  lemma ChainAfterOne(out: seq<ModEx>, e: ModEx, g: Got<(seq<ModEx>, byte)>)
    ensures ChainAfter(out, ChainAfter([e], g)) == ChainAfter(out + [e], g)
  {
    if g.Got? {
      Assoc3(out, [e], g.value.0);
    }
  }

  /** The modifiers from `start` on, the packet type behind them, and where they end. */
  method ParseModExChain(payload: seq<byte>, start: nat) returns (r: Option<(seq<ModEx>, byte, nat)>)
    requires start <= |payload|
    ensures match ParseChain(payload[start..])
            case Short => r == None
            case Got(c, w) => r.Some? && (r.value.0, r.value.1) == c && start < r.value.2 <= |payload| && payload[r.value.2..] == w
  {
    hide ParseModEx;
    var pos := start;
    var chain: seq<ModEx> := [];
    ChainAfterNothing(ParseChain(payload[pos..]));
    while true
      invariant start <= pos <= |payload|
      invariant ParseChain(payload[start..]) == ChainAfter(chain, ParseChain(payload[pos..]))
      decreases |payload| - pos
    {
      var e := ParseOneModEx(payload, pos);
      if e.None? {
        return None;
      }
      var (entry, next, after) := e.value;
      ChainAfterOne(chain, entry, ParseChain(payload[after..]));
      chain := chain + [entry];
      pos := after;
      if next != MOD_EX {
        return Some((chain, next, pos));
      }
    }
  }

  method ParseOneModEx(payload: seq<byte>, start: nat) returns (r: Option<(ModEx, byte, nat)>)
    requires start <= |payload|
    ensures match ParseModEx(payload[start..])
            case Short => r == None
            case Got(e, w) => r.Some? && (r.value.0, r.value.1) == e && start < r.value.2 <= |payload| && payload[r.value.2..] == w
  {
    hide ParseSize;
    var sized := ParseModExSize(payload, start);
    if sized.None? {
      return None;
    }
    var (size, pos) := sized.value;
    if pos + size > |payload| {
      return None;
    }
    var data := payload[pos..pos + size];
    SliceAt(payload, pos, size);
    pos := pos + size;
    if pos >= |payload| {
      return None;
    }
    var nibble := payload[pos];
    SliceAt(payload, pos, 1);
    return Some((ModEx(nibble / 16, data), nibble % 16, pos + 1));
  }

  method ParseModExSize(payload: seq<byte>, start: nat) returns (r: Option<(nat, nat)>)
    requires start <= |payload|
    ensures match ParseSize(payload[start..])
            case Short => r == None
            case Got(size, w) => r.Some? && r.value.0 == size && start < r.value.1 <= |payload| && payload[r.value.1..] == w
  {
    hide UnBE;
    var pos := start;
    if pos >= |payload| {
      return None;
    }
    var size: nat := (payload[pos] as int) + 1;
    SliceAt(payload, pos, 1);
    pos := pos + 1;
    if size == 256 {
      if pos + 2 > |payload| {
        return None;
      }
      Widths();
      size := UnBE(payload[pos..pos + 2]) + 1;
      SliceAt(payload, pos, 2);
      pos := pos + 2;
    }
    return Some((size, pos));
  }

  /** Appends a chain; every modifier but the last announces another one. */
  method BuildModExChain(out: seq<byte>, chain: seq<ModEx>, packetType: byte) returns (r: seq<byte>)
    ensures r == out + BuildChain(chain, packetType)
  {
    hide BuildModEx;
    r := out;
    assert chain[0..] == chain;
    for i := 0 to |chain|
      invariant out + BuildChain(chain, packetType) == r + BuildChain(chain[i..], packetType)
    {
      ghost var was := r;
      var next := if i + 1 < |chain| then MOD_EX else packetType;
      r := AppendModEx(r, chain[i], next);
      assert chain[i..][1..] == chain[i + 1..];
      Assoc3(was, BuildModEx(chain[i], next), BuildChain(chain[i + 1..], packetType));
    }
    assert chain[|chain|..] == [] && r + [] == r;
  }

  method AppendModEx(out: seq<byte>, e: ModEx, next: byte) returns (r: seq<byte>)
    ensures r == out + BuildModEx(e, next)
  {
    hide BE;
    r := out;
    var len := |e.data|;
    if 1 <= len <= 255 {
      r := r + [len - 1];
    } else {
      r := r + [0xFF];
      r := r + BE(2, Min(if len == 0 then 0 else len - 1, 0xFFFF));
      Assoc3(out, [0xFF], BE(2, Min(if len == 0 then 0 else len - 1, 0xFFFF)));
    }
    assert r == out + BuildSize(len);
    hide BuildSize;
    r := r + e.data;
    r := r + [e.kind % 16 * 16 + next % 16];
    Assoc4(out, BuildSize(len), e.data, [e.kind % 16 * 16 + next % 16]);
  }

  // ------------------------------------------------------------------------ tracks

  /** All tracks of a body; at least one. */
  method ParseMultitrack(body: seq<byte>, mode: byte) returns (r: Option<seq<Track>>)
    ensures r == ParseTracks(body, mode)
  {
    hide ParseTrack;
    var pos := 0;
    var tracks: seq<Track> := [];
    assert body[0..] == body;
    Prepended([], ParseTracks(body, mode));
    while true
      invariant 0 <= pos <= |body|
      invariant ParseTracks(body, mode) == Prepend(tracks, ParseTracks(body[pos..], mode))
      decreases |body| - pos
    {
      var t := ParseOneTrack(body, pos, mode);
      if t.None? {
        return None;
      }
      var (track, after) := t.value;
      PrependMore(tracks, track, ParseTracks(body[after..], mode));
      tracks := tracks + [track];
      pos := after;
      if pos >= |body| {
        assert body[pos..] == [];
        return Some(tracks);
      }
    }
  }

  method ParseOneTrack(body: seq<byte>, start: nat, mode: byte) returns (r: Option<(Track, nat)>)
    requires start <= |body|
    ensures match ParseTrack(body[start..], mode)
            case Short => r == None
            case Got(t, w) => r.Some? && r.value.0 == t && start < r.value.1 <= |body| && body[r.value.1..] == w
  {
    hide UnBE, ParseTrackFourCC;
    var front := ParseFrontFourCC(body, start, mode);
    if front.None? {
      return None;
    }
    var (fourcc, pos) := front.value;
    if pos >= |body| {
      return None;
    }
    var id := body[pos];
    SliceAt(body, pos, 1);
    pos := pos + 1;
    if mode == ONE_TRACK {
      return Some((Track(fourcc, id, body[pos..]), |body|));
    }
    if pos + 3 > |body| {
      return None;
    }
    var size := UnBE(body[pos..pos + 3]);
    SliceAt(body, pos, 3);
    pos := pos + 3;
    if pos + size > |body| {
      return None;
    }
    SliceAt(body, pos, size);
    return Some((Track(fourcc, id, body[pos..pos + size]), pos + size));
  }

  method ParseFrontFourCC(body: seq<byte>, start: nat, mode: byte) returns (r: Option<(Option<FourCC>, nat)>)
    requires start <= |body|
    ensures match ParseTrackFourCC(body[start..], mode)
            case Short => r == None
            case Got(f, w) => r.Some? && r.value.0 == f && start <= r.value.1 <= |body| && body[r.value.1..] == w
  {
    if mode != MANY_TRACKS_MANY_CODECS {
      return Some((None, start));
    }
    if start + 4 > |body| {
      return None;
    }
    SliceAt(body, start, 4);
    return Some((Some(body[start..start + 4]), start + 4));
  }

  method EncodeMultitrack(tracks: seq<Track>, mode: byte) returns (out: seq<byte>)
    ensures out == BuildTracks(tracks, mode)
  {
    hide BuildTrack;
    out := [];
    assert tracks[0..] == tracks;
    var i := 0;
    while i < |tracks| && !(mode == ONE_TRACK && i > 0)
      invariant 0 <= i <= |tracks|
      invariant mode == ONE_TRACK && i > 0 ==> out == BuildTracks(tracks, mode)
      invariant mode != ONE_TRACK || i == 0 ==> BuildTracks(tracks, mode) == out + BuildTracks(tracks[i..], mode)
    {
      ghost var was := out;
      out := out + BuildTrack(tracks[i], mode);
      assert tracks[i..][1..] == tracks[i + 1..];
      Assoc3(was, BuildTrack(tracks[i], mode), BuildTracks(tracks[i + 1..], mode));
      assert [] + BuildTrack(tracks[i], mode) == BuildTrack(tracks[i], mode);
      i := i + 1;
    }
    assert tracks[|tracks|..] == [] && out + [] == out;
  }

  // ------------------------------------------------------- gathering and taking out

  /** Checks that tags can share a message. */
  method PlanTracks(mode: byte, faces: seq<Face>, mt: byte) returns (r: Option<Plan>)
    ensures r == PlanMultitrack(mode, faces, mt)
  {
    if faces == [] || (mode == ONE_TRACK && |faces| != 1) {
      return None;
    }
    if faces[0].packetType.None? {
      return None;
    }
    var inner := faces[0].packetType.value;
    if inner == mt || inner == MOD_EX {
      return None;
    }
    var shared := if mode == MANY_TRACKS_MANY_CODECS then None else faces[0].fourcc;
    for i := 0 to |faces|
      invariant forall j :: 0 <= j < i ==> faces[j].plain && faces[j].packetType == Some(inner) && faces[j].fourcc.Some?
    {
      var f := faces[i];
      if !f.plain || f.packetType != Some(inner) || f.fourcc.None? {
        assert !Fits(f, Plan(inner, shared));
        return None;
      }
    }
    if mode != MANY_TRACKS_MANY_CODECS {
      for i := 0 to |faces|
        invariant forall j :: 0 <= j < i ==> faces[j].fourcc == shared
      {
        if faces[i].fourcc != shared {
          assert !Fits(faces[i], Plan(inner, shared));
          return None;
        }
      }
    }
    return Some(Plan(inner, shared));
  }

  /** Gathers video tags; taken out again after the trip over the wire they are the same exactly when
      each is well formed and fits. */
  method GatherVideo(mode: byte, tracks: Tracks<VideoTag>) returns (r: Option<VideoTag>)
    ensures r == MuxVideo(mode, tracks)
    ensures r.Some? && mode < 16 ==> (ReceiveVideoTracks(BuildVideo(r.value)) == Some(tracks) <==> VideoTracksOk(mode, tracks))
  {
    hide BuildVideo, PlanMultitrack, ReceiveVideoTracks, VideoTracksOk;
    var plan := PlanTracks(mode, VideoFaces(tracks), VIDEO_MULTITRACK);
    if plan.None? {
      return None;
    }
    var ft := tracks[0].1.frameType;
    for i := 0 to |tracks|
      invariant forall j :: 0 <= j < i ==> tracks[j].1.frameType == ft
    {
      if tracks[i].1.frameType != ft {
        return None;
      }
    }
    var out: seq<Track> := [];
    for i := 0 to |tracks|
      invariant |out| == i && forall j :: 0 <= j < i ==> out[j] == MuxVideoTrack(tracks[j], plan.value.shared)
    {
      out := out + [MuxVideoTrack(tracks[i], plan.value.shared)];
    }
    assert out == MuxVideoTracks(tracks, plan.value.shared);
    r := Some(VideoTag(ft, 0, None, 0, [], Some(plan.value.inner), plan.value.shared, [], Some(Multitrack(mode, out))));
    assert r.value.(modEx := []) == r.value && ChainOk([]);
    if mode < 16 {
      VideoTracksExact(mode, tracks, []);
    }
  }

  method GatherAudio(mode: byte, tracks: Tracks<AudioTag>) returns (r: Option<AudioTag>)
    ensures r == MuxAudio(mode, tracks)
    ensures r.Some? && mode < 16 ==> (ReceiveAudioTracks(BuildAudio(r.value)) == Some(tracks) <==> AudioTracksOk(mode, tracks))
  {
    hide BuildAudio, PlanMultitrack, ReceiveAudioTracks, AudioTracksOk;
    var plan := PlanTracks(mode, AudioFaces(tracks), AUDIO_MULTITRACK);
    if plan.None? {
      return None;
    }
    var out: seq<Track> := [];
    for i := 0 to |tracks|
      invariant |out| == i && forall j :: 0 <= j < i ==> out[j] == MuxAudioTrack(tracks[j], plan.value.shared)
    {
      out := out + [MuxAudioTrack(tracks[i], plan.value.shared)];
    }
    assert out == MuxAudioTracks(tracks, plan.value.shared);
    r := Some(AudioTag(FORMAT_EX_HEADER, 0, false, false, None, Some(plan.value.inner), plan.value.shared, [], [],
                       Some(Multitrack(mode, out))));
    assert r.value.(modEx := []) == r.value && ChainOk([]);
    if mode < 16 {
      AudioTracksExact(mode, tracks, []);
    }
  }

  method TakeOutVideo(tag: VideoTag) returns (r: Option<Tracks<VideoTag>>)
    ensures r == DemuxVideo(tag)
  {
    hide DemuxVideoTrack;
    if tag.multitrack.None? || tag.exPacketType.None? {
      return None;
    }
    var ts := tag.multitrack.value.tracks;
    ghost var f := t => DemuxVideoTrack(tag.frameType, tag.exPacketType.value, tag.fourcc, t);
    var out: Tracks<VideoTag> := [];
    assert ts[0..] == ts;
    Prepended([], MapAll(f, ts));
    for i := 0 to |ts|
      invariant MapAll(f, ts) == Prepend(out, MapAll(f, ts[i..]))
    {
      var t := DemuxVideoTrack(tag.frameType, tag.exPacketType.value, tag.fourcc, ts[i]);
      assert t == f(ts[i]) && ts[i..][1..] == ts[i + 1..];
      if t.None? {
        return None;
      }
      PrependMore(out, t.value, MapAll(f, ts[i + 1..]));
      out := out + [t.value];
    }
    assert ts[|ts|..] == [];
    Prepended(out, Some([]));
    return Some(out);
  }

  method TakeOutAudio(tag: AudioTag) returns (r: Option<Tracks<AudioTag>>)
    ensures r == DemuxAudio(tag)
  {
    hide DemuxAudioTrack;
    if tag.multitrack.None? || tag.exPacketType.None? {
      return None;
    }
    var ts := tag.multitrack.value.tracks;
    ghost var f := t => DemuxAudioTrack(tag.exPacketType.value, tag.fourcc, t);
    var out: Tracks<AudioTag> := [];
    assert ts[0..] == ts;
    Prepended([], MapAll(f, ts));
    for i := 0 to |ts|
      invariant MapAll(f, ts) == Prepend(out, MapAll(f, ts[i..]))
    {
      var t := DemuxAudioTrack(tag.exPacketType.value, tag.fourcc, ts[i]);
      assert t == f(ts[i]) && ts[i..][1..] == ts[i + 1..];
      if t.None? {
        return None;
      }
      PrependMore(out, t.value, MapAll(f, ts[i + 1..]));
      out := out + [t.value];
    }
    assert ts[|ts|..] == [];
    Prepended(out, Some([]));
    return Some(out);
  }
}
