/** The frame that FLV files and aggregate messages put around a message: an eleven-octet header, the
    body, and a back pointer that repeats their joint size. */
module FlvFrame {
  import opened Bytes

  const HEADER_SIZE := 11
  const UI24_MAX := 0xFF_FFFF

  datatype Header = Header(kind: byte, size: u24, time: u32, streamId: u24)

  /** The low 24 bits of the time come first, then the high eight. */
  function TimeField(time: u32): (s: seq<byte>)
    ensures |s| == 4
  {
    BE(3, time % 0x100_0000) + [time / 0x100_0000]
  }

  function ParseTime(s: seq<byte>): u32
    requires |s| == 4
  {
    Widths();
    s[3] * 0x100_0000 + UnBE(s[..3])
  }

  /** The stream id is always written as zero. */
  function BuildHeader(kind: byte, size: nat, time: u32): (s: seq<byte>)
    ensures |s| == HEADER_SIZE
  {
    [kind] + (BE(3, size) + (TimeField(time) + [0, 0, 0]))
  }

  function ParseHeader(s: seq<byte>): Header
    requires |s| == HEADER_SIZE
  {
    Widths();
    Header(s[0], UnBE(s[1..4]), ParseTime(s[4..8]), UnBE(s[8..11]))
  }

  function BackPointer(size: nat): (s: seq<byte>)
    ensures |s| == 4
  {
    BE(4, HEADER_SIZE + size)
  }

  function BuildFrame(kind: byte, time: u32, body: seq<byte>): (s: seq<byte>)
    ensures |s| == HEADER_SIZE + |body| + 4
  {
    BuildHeader(kind, |body|, time) + (body + BackPointer(|body|))
  }

  lemma TimeRead(time: u32)
    ensures ParseTime(TimeField(time)) == time
  {
    hide BE, UnBE;
    Widths();
    var lo := BE(3, time % 0x100_0000);
    UnBEInvertsBE(3, time % 0x100_0000);
    assert TimeField(time)[..3] == lo;
    assert time == time / 0x100_0000 * 0x100_0000 + time % 0x100_0000;
  }

  lemma HeaderRead(kind: byte, size: u24, time: u32)
    ensures ParseHeader(BuildHeader(kind, size, time)) == Header(kind, size, time, 0)
  {
    hide BE, UnBE, ParseTime, TimeField;
    Widths();
    var s := BuildHeader(kind, size, time);
    assert s[1..4] == BE(3, size);
    assert s[4..8] == TimeField(time);
    UnBEInvertsBE(3, size);
    TimeRead(time);
    ZeroRead(s[8..11]);
  }

  lemma ZeroRead(s: seq<byte>)
    requires s == [0, 0, 0]
    ensures UnBE(s) == 0
  {
    var one, two := s[..1], s[..2];
    assert one[..0] == [] && two[..1] == one;
    assert UnBE(one) == 0;
    assert UnBE(two) == 0;
  }

  lemma BackPointerRead(size: u24)
    ensures UnBE(BackPointer(size)) == HEADER_SIZE + size
  {
    Widths();
    UnBEInvertsBE(4, HEADER_SIZE + size);
  }

  /** One frame off the front: its header and body, or where reading stopped. */
  datatype Framed = Frame(header: Header, body: seq<byte>, rest: seq<byte>) | Truncated | BadPointer

  function ParseFrame(w: seq<byte>): (r: Framed)
    ensures r.Frame? ==> |r.rest| + HEADER_SIZE + |r.body| + 4 == |w| && |r.body| == r.header.size
  {
    if |w| < HEADER_SIZE then Truncated
    else
      var h := ParseHeader(w[..HEADER_SIZE]);
      var w1 := w[HEADER_SIZE..];
      if |w1| < h.size + 4 then Truncated
      else if UnBE(w1[h.size..h.size + 4]) != HEADER_SIZE + h.size then BadPointer
      else Frame(h, w1[..h.size], w1[h.size + 4..])
  }

  lemma FrameRead(kind: byte, time: u32, body: seq<byte>, tail: seq<byte>)
    requires |body| <= UI24_MAX
    ensures ParseFrame(BuildFrame(kind, time, body) + tail) == Frame(Header(kind, |body|, time, 0), body, tail)
  {
    hide ParseHeader, BuildHeader, BackPointer, UnBE;
    var h, p := BuildHeader(kind, |body|, time), BackPointer(|body|);
    Assoc3(h, body + p, tail);
    Assoc3(body, p, tail);
    SplitAt(h, body + (p + tail));
    SplitAt(body, p + tail);
    SplitAt(p, tail);
    var w1 := body + (p + tail);
    assert w1[|body|..|body| + 4] == w1[|body|..][..4];
    assert w1[|body| + 4..] == w1[|body|..][4..];
    HeaderRead(kind, |body|, time);
    BackPointerRead(|body|);
  }

  /** The eleven octets of a header, with any stream id: kind, size, the low 24 bits of the time and then
      its high eight, stream id. */
  function HeaderWith(kind: byte, size: u24, time: u32, streamId: u24): (s: seq<byte>)
    ensures |s| == HEADER_SIZE
  {
    [kind] + (UI24(size) + (UI24(time % 0x100_0000) + ([time / 0x100_0000] + UI24(streamId))))
  }

  lemma HeaderOctets(kind: byte, size: u24, time: u32)
    ensures BuildHeader(kind, size, time) == HeaderWith(kind, size, time, 0)
  {
    hide BE, UI24;
    UI24Is(size);
    UI24Is(time % 0x100_0000);
    UI24Zero();
    Assoc3(UI24(time % 0x100_0000), [time / 0x100_0000], [0, 0, 0]);
  }

  lemma UI24Zero()
    ensures UI24(0) == [0, 0, 0]
  {
  }

  lemma HeaderMeans(kind: byte, size: u24, time: u32, streamId: u24)
    ensures ParseHeader(HeaderWith(kind, size, time, streamId)) == Header(kind, size, time, streamId)
  {
    hide BE, UnBE, UI24;
    Widths();
    var s := HeaderWith(kind, size, time, streamId);
    var low: u24 := time % 0x100_0000;
    UI24Is(size);
    UI24Is(low);
    UI24Is(streamId);
    UnBEInvertsBE(3, size);
    UnBEInvertsBE(3, low);
    UnBEInvertsBE(3, streamId);
    assert s[1..4] == UI24(size) && s[8..11] == UI24(streamId);
    assert s[4..8][..3] == UI24(low) && s[4..8][3] == time / 0x100_0000;
    assert time == time / 0x100_0000 * 0x100_0000 + low;
  }

  /** A frame is read whatever its stream id, if its back pointer is its size; not otherwise. */
  lemma FrameMeans(kind: byte, time: u32, streamId: u24, body: seq<byte>, pointer: u32, tail: seq<byte>)
    requires |body| <= UI24_MAX
    ensures ParseFrame(HeaderWith(kind, |body|, time, streamId) + (body + (UI32(pointer) + tail)))
         == if pointer == HEADER_SIZE + |body| then Frame(Header(kind, |body|, time, streamId), body, tail) else BadPointer
  {
    hide UnBE, BE, UI32, HeaderWith, ParseHeader;
    Widths();
    var h := HeaderWith(kind, |body|, time, streamId);
    HeaderMeans(kind, |body|, time, streamId);
    UI32Is(pointer);
    UnBEInvertsBE(4, pointer);
    SplitAt(h, body + (UI32(pointer) + tail));
    SplitAt(body, UI32(pointer) + tail);
    SplitAt(UI32(pointer), tail);
    var w1 := body + (UI32(pointer) + tail);
    assert w1[|body|..|body| + 4] == w1[|body|..][..4] && w1[|body| + 4..] == w1[|body|..][4..];
  }
}
