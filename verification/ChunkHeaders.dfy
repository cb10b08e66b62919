/** What a reader makes of the octets of a chunk, whoever wrote them, field by field. */
module ChunkHeaders {
  import opened Bytes
  import opened ChunkModel
  import opened ChunkSync

  /** The format and the chunk stream in one, two or three octets; the longer forms need not be the
      shortest. */
  predicate BasicSpelled(s: seq<byte>, fmt: nat, csid: nat) {
    && fmt < 4
    && ((2 <= csid < 64 && s == [fmt * 64 + csid])
        || (64 <= csid < 320 && s == [fmt * 64, csid - 64])
        || (64 <= csid < 65600 && s == [fmt * 64 + 1, (csid - 64) % 256, (csid - 64) / 256]))
  }

  lemma BasicMeans(s: seq<byte>, fmt: nat, csid: nat, tail: seq<byte>, c: nat)
    requires BasicSpelled(s, fmt, csid)
    ensures ReadBasicHeader(Wire(s + tail, c)) == Ok((csid, fmt), Wire(tail, c + |s|))
  {
    var low := s[0] % 64;
    assert s[0] / 64 == fmt;
    if |s| == 1 {
      assert s + tail == [s[0]] + tail;
    } else if |s| == 2 {
      assert s + tail == [s[0]] + ([s[1]] + tail);
    } else {
      assert s + tail == [s[0]] + ([s[1], s[2]] + tail);
      assert csid - 64 == (csid - 64) / 256 * 256 + (csid - 64) % 256;
    }
  }

  /** A time or a step in time: 24 bits, or all ones there and 32 bits behind the header. */
  predicate TimeSpelled(field: seq<byte>, ext: seq<byte>, v: u32, wide: bool) {
    if wide then field == [0xFF, 0xFF, 0xFF] && ext == UI32(v)
    else v < 0xFF_FFFF && field == UI24(v) && ext == []
  }

  lemma FieldMeans(v: u24, tail: seq<byte>, c: nat)
    ensures ReadU24(Wire(UI24(v) + tail, c)) == Ok(v, Wire(tail, c + 3))
  {
    hide BE, UnBE, UI24;
    Widths();
    UI24Is(v);
    ReadBEPrefix(3, v, tail, c);
  }

  lemma TimeMeans(field: seq<byte>, ext: seq<byte>, v: u32, wide: bool, tail: seq<byte>, c: nat)
    requires TimeSpelled(field, ext, v, wide)
    ensures |field| == 3 && |ext| == if wide then 4 else 0
    ensures var w := if wide then 0xFF_FFFF else v;
            && (w == EXTENDED <==> wide) && w < 0x100_0000
            && (forall t: seq<byte>, d: nat :: ReadU24(Wire(field + t, d)) == Ok(w, Wire(t, d + 3)))
            && ReadExtended(w, Wire(ext + tail, c)) == Ok(v, Wire(tail, c + |ext|))
  {
    hide BE, UnBE, ReadU24, UI32;
    Widths();
    forall t: seq<byte>, d: nat
      ensures ReadU24(Wire(field + t, d)) == Ok(if wide then 0xFF_FFFF else v, Wire(t, d + 3))
    {
      FieldMeans(if wide then 0xFF_FFFF else v, t, d);
    }
    if wide {
      UI32Is(v);
      ReadBEPrefix(4, v, tail, c);
    } else {
      assert ext + tail == tail;
    }
  }

  lemma StreamIdMeans(sid: u32, tail: seq<byte>, c: nat)
    ensures ReadStreamId(Wire(UI32Reversed(sid) + tail, c)) == Ok(sid, Wire(tail, c + 4))
  {
    hide LE, UnLE, UI32Reversed;
    UI32ReversedIs(sid);
    ReadStreamIdPrefix(sid, tail, c);
  }

  /** The reader once it has taken the payload of a chunk, `size` octets in all. */
  function Taken(r: Reader, csid: nat, st: InState, piece: seq<byte>, size: nat, tail: seq<byte>): Step {
    var whole, wire := st.partial + piece, Wire(tail, r.wire.received + size);
    if |whole| >= st.length then
      Done(Reader(r.chunkSize, r.states[csid := st.(partial := [])], wire), csid, Message(st.typeId, st.streamId, st.timestamp, whole))
    else More(Reader(r.chunkSize, r.states[csid := st.(partial := whole)], wire))
  }

  /** A chunk carries what is missing of the message, or as much as a chunk may. */
  ghost predicate Shares(r: Reader, st: InState, piece: seq<byte>) {
    StateOk(st) && |piece| == Min(st.length - |st.partial|, r.chunkSize)
  }

  lemma ChunkMeans(r: Reader, csid: nat, fmt: nat, basic: seq<byte>, h: seq<byte>, st: InState, piece: seq<byte>, tail: seq<byte>)
    requires ReaderOk(r) && BasicSpelled(basic, fmt, csid) && Shares(r, st, piece)
    requires r.wire.rest == basic + (h + (piece + tail))
    requires var c := r.wire.received + |basic|;
             ReadMessageHeader(fmt, Lookup(r.states, csid), Wire(h + (piece + tail), c)) == Ok(st, Wire(piece + tail, c + |h|))
    ensures ReadChunk(r) == Taken(r, csid, st, piece, |basic| + |h| + |piece|, tail)
  {
    hide ReadMessageHeader, ReadBasicHeader;
    BasicMeans(basic, fmt, csid, h + (piece + tail), r.wire.received);
    ReadExactPrefix(piece, tail, r.wire.received + |basic| + |h|);
  }

  /** A full header begins a message of its own, whatever was known or half received: time, length, type
      and stream are those it spells. */
  lemma FullHeader(
    r: Reader, csid: nat, basic: seq<byte>, field: seq<byte>, ext: seq<byte>, time: u32, wide: bool, length: u24, ty: byte, sid: u32,
    piece: seq<byte>, tail: seq<byte>)
    requires ReaderOk(r) && BasicSpelled(basic, 0, csid) && TimeSpelled(field, ext, time, wide)
    requires |piece| == Min(length, r.chunkSize)
    requires r.wire.rest == basic + ((field + (UI24(length) + ([ty] + (UI32Reversed(sid) + ext)))) + (piece + tail))
    ensures ReadChunk(r) == Taken(r, csid, InState(ty, sid, length, time, time, wide, []), piece, |basic| + 11 + |ext| + |piece|, tail)
  {
    hide ReadChunk, BasicSpelled, TimeSpelled, UI24, UI32Reversed, ReadU24, ReadStreamId, ReadExtended, Taken;
    var x := piece + tail;
    var h := field + (UI24(length) + ([ty] + (UI32Reversed(sid) + ext)));
    var c := r.wire.received + |basic|;
    Assoc3(field, UI24(length) + ([ty] + (UI32Reversed(sid) + ext)), x);
    Assoc3(UI24(length), [ty] + (UI32Reversed(sid) + ext), x);
    Assoc3([ty], UI32Reversed(sid) + ext, x);
    Assoc3(UI32Reversed(sid), ext, x);
    TimeMeans(field, ext, time, wide, x, c + 11);
    FieldMeans(length, [ty] + (UI32Reversed(sid) + (ext + x)), c + 3);
    ReadU8Prefix(ty, UI32Reversed(sid) + (ext + x), c + 6);
    StreamIdMeans(sid, ext + x, c + 7);
    ChunkMeans(r, csid, 0, basic, h, InState(ty, sid, length, time, time, wide, []), piece, tail);
  }

  /** A header without stream keeps the stream and moves the time on. */
  lemma SameStreamHeader(
    r: Reader, csid: nat, basic: seq<byte>, field: seq<byte>, ext: seq<byte>, step: u32, wide: bool, length: u24, ty: byte,
    piece: seq<byte>, tail: seq<byte>)
    requires ReaderOk(r) && csid in r.states && BasicSpelled(basic, 1, csid) && TimeSpelled(field, ext, step, wide)
    requires |piece| == Min(length, r.chunkSize)
    requires r.wire.rest == basic + ((field + (UI24(length) + ([ty] + ext))) + (piece + tail))
    ensures var was := r.states[csid];
            ReadChunk(r) == Taken(r, csid, InState(ty, was.streamId, length, (was.timestamp + step) % 0x1_0000_0000, step, wide, []), piece,
                                  |basic| + 7 + |ext| + |piece|, tail)
  {
    hide ReadChunk, BasicSpelled, TimeSpelled, UI24, ReadU24, ReadExtended, Taken;
    var x := piece + tail;
    var h := field + (UI24(length) + ([ty] + ext));
    var c := r.wire.received + |basic|;
    var was := r.states[csid];
    Assoc3(field, UI24(length) + ([ty] + ext), x);
    Assoc3(UI24(length), [ty] + ext, x);
    Assoc3([ty], ext, x);
    TimeMeans(field, ext, step, wide, x, c + 7);
    FieldMeans(length, [ty] + (ext + x), c + 3);
    ReadU8Prefix(ty, ext + x, c + 6);
    ChunkMeans(r, csid, 1, basic, h, InState(ty, was.streamId, length, WrapAdd(was.timestamp, step), step, wide, []), piece, tail);
  }

  /** A header with a step alone keeps type and length too. */
  lemma StepHeader(
    r: Reader, csid: nat, basic: seq<byte>, field: seq<byte>, ext: seq<byte>, step: u32, wide: bool, piece: seq<byte>, tail: seq<byte>)
    requires ReaderOk(r) && csid in r.states && BasicSpelled(basic, 2, csid) && TimeSpelled(field, ext, step, wide)
    requires |piece| == Min(r.states[csid].length, r.chunkSize)
    requires r.wire.rest == basic + ((field + ext) + (piece + tail))
    ensures var was := r.states[csid];
            ReadChunk(r) == Taken(r, csid, InState(was.typeId, was.streamId, was.length, (was.timestamp + step) % 0x1_0000_0000, step, wide, []),
                                  piece, |basic| + 3 + |ext| + |piece|, tail)
  {
    hide ReadChunk, BasicSpelled, TimeSpelled, ReadU24, ReadExtended, Taken;
    var x := piece + tail;
    var c := r.wire.received + |basic|;
    var was := r.states[csid];
    Assoc3(field, ext, x);
    TimeMeans(field, ext, step, wide, x, c + 3);
    ChunkMeans(r, csid, 2, basic, field + ext, was.(timestamp := WrapAdd(was.timestamp, step), lastDelta := step, hadExt := wide, partial := []),
               piece, tail);
  }

  /** No header: between messages it begins one like the last, with the same step again; within one it
      goes on with it. If the last header had a 32-bit field, any such field is repeated and ignored. */
  lemma NoHeader(r: Reader, csid: nat, basic: seq<byte>, ext: seq<byte>, piece: seq<byte>, tail: seq<byte>)
    requires ReaderOk(r) && csid in r.states && BasicSpelled(basic, 3, csid)
    requires |ext| == if r.states[csid].hadExt then 4 else 0
    requires |piece| == Min(r.states[csid].length - |r.states[csid].partial|, r.chunkSize)
    requires r.wire.rest == basic + (ext + (piece + tail))
    ensures var was := r.states[csid];
            var st := if was.partial == [] then was.(timestamp := (was.timestamp + was.lastDelta) % 0x1_0000_0000) else was;
            ReadChunk(r) == Taken(r, csid, st, piece, |basic| + |ext| + |piece|, tail)
  {
    hide ReadChunk, BasicSpelled, UnBE, Taken;
    Widths();
    var was := r.states[csid];
    assert StateOk(was);
    var st := if was.partial == [] then was.(timestamp := WrapAdd(was.timestamp, was.lastDelta)) else was;
    var c := r.wire.received + |basic|;
    if was.hadExt {
      ReadExactPrefix(ext, piece + tail, c);
    } else {
      assert ext + (piece + tail) == piece + tail;
    }
    ChunkMeans(r, csid, 3, basic, ext, st, piece, tail);
  }

  /** On a chunk stream that is not known, only a full header is accepted. */
  lemma UnknownStream(r: Reader, csid: nat, fmt: nat, basic: seq<byte>, more: seq<byte>)
    requires ReaderOk(r) && csid !in r.states && BasicSpelled(basic, fmt, csid) && fmt > 0
    requires r.wire.rest == basic + more
    ensures ReadChunk(r).Broken? && ReadChunk(r).r.states == r.states && (fmt == 3 || |more| >= 11 ==> ReadChunk(r).error == InvalidChunk)
  {
    hide ReadBasicHeader, ReadU24, BasicSpelled, UnBE;
    BasicMeans(basic, fmt, csid, more, r.wire.received);
    hide ReadFmt0;
    UnknownHeader(fmt, Wire(more, r.wire.received + |basic|));
  }

  lemma UnknownHeader(fmt: nat, w: Wire)
    requires 0 < fmt < 4
    ensures var r := ReadMessageHeader(fmt, None, w);
            r.Fail? && (fmt == 3 || |w.rest| >= 11 ==> r.error == InvalidChunk)
  {
    hide UnBE;
    Widths();
  }

  /** A stream that ends within a chunk is drained, and reported as its end. */
  lemma EndsEarly(r: Reader)
    requires ReaderOk(r) && r.wire.rest == []
    ensures ReadChunk(r) == Broken(r, Eof)
  {
  }
}
