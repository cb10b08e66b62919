/** Rebuilding what was parsed: the same octets, unless a modifier's size was spelled with more
    octets than it needs, and then fewer. */
module FlvCanonical {
  import opened Bytes
  import opened FlvModel
  import opened FlvRoundTrip

  /** `b` is `w` again, or shorter where `w` was not minimal. */
  ghost predicate Rebuilt(b: seq<byte>, w: seq<byte>, minimal: bool) {
    if minimal then b == w else |b| < |w|
  }

  /** The size is in the short form, or too large for it. */
  predicate SizeMinimal(w: seq<byte>) {
    w != [] && (w[0] == 255 ==> |w| >= 3 && UnBE(w[1..3]) >= 255)
  }

  predicate ChainMinimal(w: seq<byte>)
    decreases |w|
  {
    && SizeMinimal(w)
    && match ParseModEx(w)
       case Short => false
       case Got(e, w1) => e.1 == MOD_EX ==> ChainMinimal(w1)
  }

  lemma SizeBack(w: seq<byte>)
    requires ParseSize(w).Got?
    ensures Rebuilt(BuildSize(ParseSize(w).value) + ParseSize(w).rest, w, SizeMinimal(w))
  {
    hide BE, UnBE;
    Widths();
    var r := ParseSize(w);
    if w[0] == 255 {
      BEInvertsUnBE(w[1..3]);
      assert w == [0xFF] + w[1..3] + w[3..];
      assert w[1..][..2] == w[1..3] && w[1..][2..] == w[3..];
    }
  }

  lemma NibbleBack(b: byte)
    ensures b / 16 % 16 * 16 + b % 16 % 16 == b && b / 16 < 16
  {
  }

  lemma ModExBack(w: seq<byte>)
    requires ParseModEx(w).Got?
    ensures var r := ParseModEx(w);
            EntryOk(r.value.0) && Rebuilt(BuildModEx(r.value.0, r.value.1) + r.rest, w, SizeMinimal(w))
  {
    hide ParseSize, BuildSize, SizeMinimal;
    var s := ParseSize(w);
    var d := Take(s.rest, s.value);
    var n := TakeByte(d.rest);
    NibbleBack(n.value);
    SizeBack(w);
    Assoc3(BuildSize(s.value), d.value + [n.value], n.rest);
    Assoc3(d.value, [n.value], n.rest);
  }

  lemma {:induction false} ChainBack(w: seq<byte>)
    requires ParseChain(w).Got?
    ensures var r := ParseChain(w);
            ChainOk(r.value.0) && Rebuilt(BuildChain(r.value.0, r.value.1) + r.rest, w, ChainMinimal(w))
    decreases |w|
  {
    hide ParseModEx, BuildModEx, SizeMinimal, EntryOk;
    var e := ParseModEx(w);
    var r := ParseChain(w);
    ModExBack(w);
    if e.value.1 != MOD_EX {
      assert r.value.0[1..] == [];
      assert BuildChain(r.value.0, r.value.1) == BuildModEx(e.value.0, e.value.1) + [];
      assert BuildModEx(e.value.0, e.value.1) + [] == BuildModEx(e.value.0, e.value.1);
    } else {
      var c := ParseChain(e.rest);
      ChainBack(e.rest);
      assert r.value.0[0] == e.value.0 && r.value.0[1..] == c.value.0;
      Assoc3(BuildModEx(e.value.0, MOD_EX), BuildChain(c.value.0, c.value.1), c.rest);
    }
  }

  predicate PreludeMinimal(first: byte, w: seq<byte>) {
    first == MOD_EX ==> ChainMinimal(w)
  }

  /** The mode octet and the shared FourCC. */
  lemma ModeBack(pt: byte, w: seq<byte>, mt: byte, chain: seq<ModEx>)
    requires pt < 16 && pt != MOD_EX && 0 < mt < 16 && ParseMode(pt, w, mt).Got? && ChainOk(chain)
    requires ParseSharedFourCC(ParseMode(pt, w, mt).value.0, ParseMode(pt, w, mt).rest).Got?
    ensures var m := ParseMode(pt, w, mt);
            var f := ParseSharedFourCC(m.value.0, m.rest);
            var p := Prelude(chain, m.value.0, m.value.1, f.value);
            && PreludeOk(p, mt) && OuterType(p, mt) == pt
            && BuildMode(p) + BuildSharedFourCC(p) + f.rest == w
  {
    hide ChainOk;
    if pt == mt {
      NibbleBack(w[0]);
      assert w == [w[0]] + w[1..];
    }
  }

  lemma PreludeBack(first: byte, w: seq<byte>, mt: byte)
    requires first < 16 && 0 < mt < 16 && mt != MOD_EX && ParsePrelude(first, w, mt).Got?
    ensures var r := ParsePrelude(first, w, mt);
            && PreludeOk(r.value, mt) && HeaderType(r.value, mt) == first
            && Rebuilt(BuildPrelude(r.value, mt) + r.rest, w, PreludeMinimal(first, w))
  {
    hide ParseChain, BuildChain, ParseMode, ParseSharedFourCC, BuildMode, BuildSharedFourCC, ChainOk, ChainMinimal, PreludeOk;
    var r := ParsePrelude(first, w, mt);
    NoChain(OuterType(r.value, mt));
    var p, more := r.value, BuildMode(r.value) + BuildSharedFourCC(r.value);
    Assoc3(BuildChain(p.modEx, OuterType(p, mt)), more, r.rest);
    if first == MOD_EX {
      var c := ParseChain(w);
      ChainBack(w);
      ModeBack(c.value.1, c.rest, mt, c.value.0);
    } else {
      ModeBack(first, w, mt, []);
      assert [] + (more + r.rest) == more + r.rest;
    }
  }

  lemma TrackBack(w: seq<byte>, mode: byte)
    requires ParseTrack(w, mode).Got?
    ensures var r := ParseTrack(w, mode);
            TrackOk(r.value, mode) && BuildTrack(r.value, mode) + r.rest == w
  {
    hide BE, UnBE;
    Widths();
    var f := ParseTrackFourCC(w, mode);
    var id := TakeByte(f.rest);
    var w2 := id.rest;
    var r := ParseTrack(w, mode);
    var head: seq<byte> := if f.value.Some? then f.value.value else [];
    assert w == head + ([id.value] + w2);
    if mode != ONE_TRACK {
      BEInvertsUnBE(w2[..3]);
      assert w2 == w2[..3] + w2[3..];
      var body := r.value.body;
      Assoc3(BE(3, |body|), body, r.rest);
      Assoc3([id.value], BE(3, |body|) + body, r.rest);
      Assoc3(head, [id.value] + (BE(3, |body|) + body), r.rest);
    } else {
      assert [] + w2 == w2 && BuildTrack(r.value, mode) + [] == BuildTrack(r.value, mode);
    }
  }

  lemma {:induction false} TracksBack(w: seq<byte>, mode: byte)
    requires ParseTracks(w, mode).Some?
    ensures var ts := ParseTracks(w, mode).value;
            TracksOk(ts, mode) && BuildTracks(ts, mode) == w
    decreases |w|
  {
    hide BuildTrack, TrackOk, ParseTrackFourCC;
    TrackBack(w, mode);
    var r := ParseTrack(w, mode);
    var ts := ParseTracks(w, mode).value;
    if r.rest == [] {
      assert ts[1..] == [] && BuildTrack(r.value, mode) + [] == BuildTrack(r.value, mode);
    } else {
      hide ParseTrack;
      TracksBack(r.rest, mode);
      ParsedTracks(r.rest, mode);
      assert ts[0] == r.value && ts[1..] == ParseTracks(r.rest, mode).value;
    }
  }

  lemma CtsBack(needed: bool, w: seq<byte>)
    requires ParseCts(needed, w).Got?
    ensures var r := ParseCts(needed, w);
            CtsOk(needed, r.value) && BuildCts(needed, r.value) + r.rest == w
  {
    hide BE, UnBE;
    Widths();
    if needed {
      BEInvertsUnBE(w[..3]);
      assert w == w[..3] + w[3..];
    }
  }

  /** Whether every modifier of a video message spells its size minimally. */
  predicate VideoMinimal(w: seq<byte>) {
    w != [] && w[0] >= 0x80 ==> PreludeMinimal(w[0] % 16, w[1..])
  }

  predicate AudioMinimal(w: seq<byte>) {
    w != [] && w[0] / 16 == FORMAT_EX_HEADER ==> PreludeMinimal(w[0] % 16, w[1..])
  }

  lemma ExVideoBack(ft: byte, first: byte, w: seq<byte>)
    requires ft < 8 && first < 16 && ParseExVideo(ft, first, w).Some?
    ensures var tag := ParseExVideo(ft, first, w).value;
            && IsExVideo(tag) && VideoOk(tag)
            && Rebuilt(BuildVideo(tag), [0x80 + ft * 16 + first] + w, PreludeMinimal(first, w))
  {
    hide ParsePrelude, BuildPrelude, HeaderType, PreludeOk, ParseTracks, BuildTracks, TracksOk, ParseCts, BuildCts, CtsOk,
      NeedsCts, CarriesTime, PreludeMinimal;
    var r := ParsePrelude(first, w, VIDEO_MULTITRACK);
    var tag := ParseExVideo(ft, first, w).value;
    var p := r.value;
    PreludeBack(first, w, VIDEO_MULTITRACK);
    assert VideoPrelude(tag) == p;
    if p.mode.Some? {
      TracksBack(r.rest, p.mode.value);
    } else {
      TimeNeeded(ft, p.packetType, p.fourcc.value);
      CtsBack(NeedsCts(ft, p.packetType, p.fourcc.value), r.rest);
    }
  }

  lemma LegacyVideoBack(ft: byte, codec: byte, w: seq<byte>)
    requires ft < 8 && codec < 16 && ParseLegacyVideo(ft, codec, w).Some?
    ensures var tag := ParseLegacyVideo(ft, codec, w).value;
            !IsExVideo(tag) && VideoOk(tag) && BuildVideo(tag) == [ft * 16 + codec] + w
  {
    hide ParseCts, BuildCts, CtsOk;
    NoCts(0);
    if ft != FRAME_COMMAND && codec == CODEC_AVC {
      CtsBack(true, w[1..]);
      assert w == [w[0]] + w[1..];
    }
  }

  /** Whatever parses as a video tag is rebuilt from the tag, octet for octet, exactly when its
      modifiers spell their sizes minimally; otherwise the rebuilt octets are fewer and parse to the
      same tag. */
  lemma VideoBack(w: seq<byte>)
    requires ParseVideo(w).Some?
    ensures var tag := ParseVideo(w).value;
            && VideoOk(tag) && ParseVideo(BuildVideo(tag)) == Some(tag)
            && Rebuilt(BuildVideo(tag), w, VideoMinimal(w))
  {
    hide ParseExVideo, ParseLegacyVideo, BuildVideo, VideoOk, PreludeMinimal;
    var b := w[0];
    assert w == [b] + w[1..];
    VideoExact(ParseVideo(w).value);
    if b >= 0x80 {
      ExVideoBack(b / 16 % 8, b % 16, w[1..]);
      assert 0x80 + b / 16 % 8 * 16 + b % 16 == b;
    } else {
      LegacyVideoBack(b / 16, b % 16, w[1..]);
    }
  }

  lemma ExAudioBack(first: byte, w: seq<byte>)
    requires first < 16 && ParseExAudio(first, w).Some?
    ensures var tag := ParseExAudio(first, w).value;
            && IsExAudio(tag) && AudioOk(tag)
            && Rebuilt(BuildAudio(tag), [FORMAT_EX_HEADER * 16 + first] + w, PreludeMinimal(first, w))
  {
    hide ParsePrelude, BuildPrelude, HeaderType, PreludeOk, ParseTracks, BuildTracks, TracksOk, PreludeMinimal;
    var r := ParsePrelude(first, w, AUDIO_MULTITRACK);
    var tag := ParseExAudio(first, w).value;
    PreludeBack(first, w, AUDIO_MULTITRACK);
    assert AudioPrelude(tag) == r.value;
    if r.value.mode.Some? {
      TracksBack(r.rest, r.value.mode.value);
    }
  }

  lemma AudioHeadBack(b: byte)
    ensures b / 16 % 16 * 16 + b / 4 % 4 % 4 * 4 + (if b / 2 % 2 == 1 then 2 else 0) + (if b % 2 == 1 then 1 else 0) == b
  {
    assert b == b / 16 * 16 + b % 16;
    assert b / 4 % 4 == b % 16 / 4;
  }

  /** The same for audio. */
  lemma AudioBack(w: seq<byte>)
    requires ParseAudio(w).Some?
    ensures var tag := ParseAudio(w).value;
            && AudioOk(tag) && ParseAudio(BuildAudio(tag)) == Some(tag)
            && Rebuilt(BuildAudio(tag), w, AudioMinimal(w))
  {
    hide ParseExAudio, BuildExAudio, PreludeMinimal, PreludeOk;
    var b := w[0];
    assert w == [b] + w[1..];
    AudioExact(ParseAudio(w).value);
    if b / 16 == FORMAT_EX_HEADER {
      ExAudioBack(b % 16, w[1..]);
      assert FORMAT_EX_HEADER * 16 + b % 16 == b;
    } else {
      AudioHeadBack(b);
      if b / 16 == FORMAT_AAC {
        assert w[1..] == [w[1]] + w[1..][1..];
      }
    }
  }
}
