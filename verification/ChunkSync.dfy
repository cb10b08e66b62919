/** Writer and reader stay in step: chunk by chunk, message by message. */
module ChunkSync {
  import opened Bytes
  import opened ChunkModel

  lemma ReadExactPrefix(a: seq<byte>, tail: seq<byte>, c: nat)
    ensures ReadExact(Wire(a + tail, c), |a|) == Ok(a, Wire(tail, c + |a|))
  {
    SplitAt(a, tail);
  }

  lemma ReadBEPrefix(n: nat, v: nat, tail: seq<byte>, c: nat)
    requires v < Pow256(n)
    ensures ReadBE(Wire(BE(n, v) + tail, c), n) == Ok(v, Wire(tail, c + n))
  {
    ReadExactPrefix(BE(n, v), tail, c);
    UnBEInvertsBE(n, v);
  }

  lemma ReadU8Prefix(b: byte, tail: seq<byte>, c: nat)
    ensures ReadU8(Wire([b] + tail, c)) == Ok(b, Wire(tail, c + 1))
  {
    ReadExactPrefix([b], tail, c);
  }

  lemma ReadStreamIdPrefix(v: u32, tail: seq<byte>, c: nat)
    ensures ReadStreamId(Wire(LE(4, v) + tail, c)) == Ok(v, Wire(tail, c + 4))
  {
    Widths();
    ReadExactPrefix(LE(4, v), tail, c);
    UnLEInvertsLE(4, v);
  }

  /** Each of the three lengths of basic header is read back. */
  lemma BasicHeaderRead(fmt: nat, csid: nat, tail: seq<byte>, c: nat)
    requires fmt < 4 && CsidInRange(csid)
    ensures var h := BasicHeader(fmt, csid);
            ReadBasicHeader(Wire(h + tail, c)) == Ok((csid, fmt), Wire(tail, c + |h|))
  {
    var h := BasicHeader(fmt, csid);
    ReadU8Prefix(h[0], h[1..] + tail, c);
    assert h + tail == [h[0]] + (h[1..] + tail);
    if 64 <= csid < 320 {
      ReadU8Prefix(h[1], tail, c + 1);
      assert h[1..] == [h[1]];
    } else if csid >= 320 {
      ReadExactPrefix(h[1..], tail, c + 1);
    } else {
      assert h[1..] + tail == tail;
    }
  }

  /** A timestamp field with its extension, if any, is read back. */
  lemma ExtFieldRead(v: u32, tail: seq<byte>, c: nat)
    ensures var ext := v >= EXTENDED;
            var field := if ext then EXTENDED else v;
            ReadExtended(field, Wire(ExtField(ext, v) + tail, c))
            == Ok(v, Wire(tail, c + |ExtField(ext, v)|))
  {
    Widths();
    if v >= EXTENDED {
      ReadBEPrefix(4, v, tail, c);
    } else {
      assert ExtField(false, v) + tail == tail;
    }
  }

  /** The reader's memory that corresponds to the writer's. */
  function Mirror(o: OutState): InState
    requires o.length < 0x100_0000
  {
    InState(o.typeId, o.streamId, o.length, o.timestamp, o.lastDelta, o.hadExt, [])
  }

  /** On a chunk stream that has been used, the reader holds exactly what the writer holds. */
  ghost predicate Synced(o: OutState, known: Option<InState>) {
    o.primed ==> o.length < 0x100_0000 && known == Some(Mirror(o))
  }

  /** The formats from which a reader in step can recover `m`. */
  predicate Fits(fmt: nat, o: OutState, m: Message) {
    && fmt < 4
    && (fmt >= 1 ==> o.primed && o.streamId == m.streamId)
    && (fmt >= 2 ==> o.typeId == m.typeId && o.length == PayloadLength(m))
    && (fmt == 3 ==> WrapSub(m.timestamp, o.timestamp) == o.lastDelta)
  }

  lemma ChosenFormatFits(o: OutState, m: Message)
    ensures Fits(ChooseFormat(o, m), o, m)
  {
  }

  lemma Fmt0Read(o: OutState, m: Message, tail: seq<byte>, c: nat)
    requires |m.payload| < 0x100_0000
    ensures var h := MessageHeader(0, o, m);
            ReadFmt0(Wire(h + tail, c)) == Ok(Mirror(Commit(0, o, m)), Wire(tail, c + |h|))
  {
    hide BE, UnBE, LE, UnLE, ReadExact;
    Widths();
    var v := m.timestamp;
    var ext := v >= EXTENDED;
    var field := if ext then EXTENDED else v;
    var t4 := ExtField(ext, v) + tail;
    var t3 := LE(4, m.streamId) + t4;
    var t2 := [m.typeId] + t3;
    var t1 := BE(3, |m.payload|) + t2;
    Assoc6(BE(3, field), BE(3, |m.payload|), [m.typeId], LE(4, m.streamId), ExtField(ext, v), tail);
    ReadBEPrefix(3, field, t1, c);
    ReadBEPrefix(3, |m.payload|, t2, c + 3);
    ReadU8Prefix(m.typeId, t3, c + 6);
    ReadStreamIdPrefix(m.streamId, t4, c + 7);
    ExtFieldRead(v, tail, c + 11);
  }

  lemma Fmt1Read(o: OutState, m: Message, known: Option<InState>, tail: seq<byte>, c: nat)
    requires |m.payload| < 0x100_0000 && Fits(1, o, m) && Synced(o, known)
    ensures var h := MessageHeader(1, o, m);
            ReadFmt1(known, Wire(h + tail, c)) == Ok(Mirror(Commit(1, o, m)), Wire(tail, c + |h|))
  {
    hide BE, UnBE, LE, UnLE, ReadExact;
    Widths();
    var v := WrapSub(m.timestamp, o.timestamp);
    var ext := v >= EXTENDED;
    var field := if ext then EXTENDED else v;
    var t3 := ExtField(ext, v) + tail;
    var t2 := [m.typeId] + t3;
    var t1 := BE(3, |m.payload|) + t2;
    WrapInverse(m.timestamp, o.timestamp);
    Assoc5(BE(3, field), BE(3, |m.payload|), [m.typeId], ExtField(ext, v), tail);
    ReadBEPrefix(3, field, t1, c);
    ReadBEPrefix(3, |m.payload|, t2, c + 3);
    ReadU8Prefix(m.typeId, t3, c + 6);
    ExtFieldRead(v, tail, c + 7);
  }

  lemma Fmt2Read(o: OutState, m: Message, known: Option<InState>, tail: seq<byte>, c: nat)
    requires Fits(2, o, m) && Synced(o, known)
    ensures var h := MessageHeader(2, o, m);
            ReadFmt2(known, Wire(h + tail, c)) == Ok(Mirror(Commit(2, o, m)), Wire(tail, c + |h|))
  {
    hide BE, UnBE, LE, UnLE, ReadExact;
    Widths();
    var v := WrapSub(m.timestamp, o.timestamp);
    var ext := v >= EXTENDED;
    var field := if ext then EXTENDED else v;
    var t1 := ExtField(ext, v) + tail;
    WrapInverse(m.timestamp, o.timestamp);
    Assoc3(BE(3, field), ExtField(ext, v), tail);
    ReadBEPrefix(3, field, t1, c);
    ExtFieldRead(v, tail, c + 3);
  }

  /** The repeated 32-bit field, whatever it holds, is skipped. */
  lemma Fmt3Read(st: InState, v: u32, tail: seq<byte>, c: nat)
    ensures var h := ExtField(st.hadExt, v);
            ReadFmt3(Some(st), Wire(h + tail, c))
            == Ok(if st.partial == [] then st.(timestamp := WrapAdd(st.timestamp, st.lastDelta)) else st,
                  Wire(tail, c + |h|))
  {
    Widths();
    if st.hadExt {
      ReadBEPrefix(4, v, tail, c);
    } else {
      assert ExtField(false, v) + tail == tail;
    }
  }

  lemma MessageHeaderRead(fmt: nat, o: OutState, m: Message, known: Option<InState>, tail: seq<byte>, c: nat)
    requires |m.payload| < 0x100_0000 && Fits(fmt, o, m) && Synced(o, known)
    ensures var h := MessageHeader(fmt, o, m);
            ReadMessageHeader(fmt, known, Wire(h + tail, c))
            == Ok(Mirror(Commit(fmt, o, m)), Wire(tail, c + |h|))
  {
    hide ReadFmt0, ReadFmt1, ReadFmt2, ReadFmt3, ExtField;
    if fmt == 0 {
      Fmt0Read(o, m, tail, c);
    } else if fmt == 1 {
      Fmt1Read(o, m, known, tail, c);
    } else if fmt == 2 {
      Fmt2Read(o, m, known, tail, c);
    } else {
      Fmt3Read(Mirror(o), o.lastDelta, tail, c);
    }
  }

  /** The reader after a chunk on `csid` of `size` octets left the state `st` and the octets `tail`. */
  function Moved(r: Reader, csid: nat, st: InState, size: nat, tail: seq<byte>): Reader {
    Reader(r.chunkSize, r.states[csid := st], Wire(tail, r.wire.received + size))
  }

  /** What reading the chunk that carries `payload[cursor..cursor + n]` leads to. */
  function Progress(r: Reader, csid: nat, o: OutState, payload: seq<byte>, cursor: nat, size: nat, tail: seq<byte>): Step
    requires o.length < 0x100_0000 && cursor <= |payload|
  {
    if cursor + r.chunkSize >= |payload| then
      Done(Moved(r, csid, Mirror(o), size, tail), csid, Message(o.typeId, o.streamId, o.timestamp, payload))
    else
      More(Moved(r, csid, Mirror(o).(partial := payload[..cursor + r.chunkSize]), size, tail))
  }

  lemma BodyRead(r: Reader, csid: nat, o: OutState, payload: seq<byte>, cursor: nat, tail: seq<byte>, c: nat)
    requires ReaderOk(r) && cursor <= |payload| == o.length < 0x100_0000
    requires cursor == 0 || cursor < |payload|
    ensures var piece := payload[cursor..Min(cursor + r.chunkSize, |payload|)];
            ReadBody(r, csid, Mirror(o).(partial := payload[..cursor]), Wire(piece + tail, c))
            == Progress(r.(wire := Wire([], c)), csid, o, payload, cursor, |piece|, tail)
  {
    var piece := payload[cursor..Min(cursor + r.chunkSize, |payload|)];
    ReadExactPrefix(piece, tail, c);
    assert payload[..cursor] + piece == payload[..Min(cursor + r.chunkSize, |payload|)];
    assert payload[..|payload|] == payload;
  }

  /** A chunk is its basic header, its message header and its share of the payload. */
  lemma ChunkRead(r: Reader, csid: nat, fmt: nat, h: seq<byte>, st: InState, body: seq<byte>)
    requires ReaderOk(r) && CsidInRange(csid) && fmt < 4
    requires r.wire.rest == BasicHeader(fmt, csid) + (h + body)
    requires var c := r.wire.received + |BasicHeader(fmt, csid)|;
             ReadMessageHeader(fmt, Lookup(r.states, csid), Wire(h + body, c)) == Ok(st, Wire(body, c + |h|))
    ensures StateOk(st)
    ensures ReadChunk(r) == ReadBody(r, csid, st, Wire(body, r.wire.received + |BasicHeader(fmt, csid)| + |h|))
  {
    BasicHeaderRead(fmt, csid, h + body, r.wire.received);
  }

  /** The first chunk of a message, in any format that fits, is understood. */
  lemma HeadChunkRead(r: Reader, fmt: nat, csid: nat, o: OutState, m: Message, tail: seq<byte>)
    requires ReaderOk(r) && CsidInRange(csid)
    requires |m.payload| < 0x100_0000 && Fits(fmt, o, m) && Synced(o, Lookup(r.states, csid))
    requires r.wire.rest == HeadChunk(fmt, csid, o, m, r.chunkSize) + tail
    ensures ReadChunk(r) == Progress(r, csid, Commit(fmt, o, m), m.payload, 0,
                                     |HeadChunk(fmt, csid, o, m, r.chunkSize)|, tail)
  {
    hide ReadMessageHeader, MessageHeader, ReadBody, ReadChunk, BasicHeader;
    var o1 := Commit(fmt, o, m);
    var b, h, c := BasicHeader(fmt, csid), MessageHeader(fmt, o, m), r.wire.received;
    var piece := m.payload[0..Min(r.chunkSize, |m.payload|)];
    Assoc4(b, h, piece, tail);
    MessageHeaderRead(fmt, o, m, Lookup(r.states, csid), piece + tail, c + |b|);
    ChunkRead(r, csid, fmt, h, Mirror(o1), piece + tail);
    BodyRead(r, csid, o1, m.payload, 0, tail, c + |b| + |h|);
    assert Mirror(o1).(partial := m.payload[..0]) == Mirror(o1);
  }

  /** A continuation chunk is understood by a reader that holds the payload so far. */
  lemma ContinuationRead(r: Reader, csid: nat, o: OutState, payload: seq<byte>, cursor: nat, tail: seq<byte>)
    requires ReaderOk(r) && CsidInRange(csid)
    requires 0 < cursor < |payload| == o.length < 0x100_0000
    requires Lookup(r.states, csid) == Some(Mirror(o).(partial := payload[..cursor]))
    requires r.wire.rest == ContinuationChunk(csid, o, payload, cursor, r.chunkSize) + tail
    ensures ReadChunk(r) == Progress(r, csid, o, payload, cursor,
                                     |ContinuationChunk(csid, o, payload, cursor, r.chunkSize)|, tail)
  {
    hide ReadBody, ReadChunk, BasicHeader, ExtField, ReadFmt3;
    var b, h, c := BasicHeader(3, csid), ExtField(o.hadExt, o.lastDelta), r.wire.received;
    var piece := payload[cursor..Min(cursor + r.chunkSize, |payload|)];
    var st := Mirror(o).(partial := payload[..cursor]);
    Assoc4(b, h, piece, tail);
    Fmt3Read(st, o.lastDelta, piece + tail, c + |b|);
    ChunkRead(r, csid, 3, h, st, piece + tail);
    BodyRead(r, csid, o, payload, cursor, tail, c + |b| + |h|);
  }

  /** The rest of a message is reassembled whatever the number of its chunks. */
  lemma {:induction false} ContinuationsRead(
    r: Reader, csid: nat, o: OutState, payload: seq<byte>, cursor: nat, tail: seq<byte>)
    requires ReaderOk(r) && CsidInRange(csid)
    requires 0 < cursor < |payload| == o.length < 0x100_0000
    requires Lookup(r.states, csid) == Some(Mirror(o).(partial := payload[..cursor]))
    requires r.wire.rest == Continuations(csid, o, payload, cursor, r.chunkSize) + tail
    ensures ReadMessage(r)
         == Done(Moved(r, csid, Mirror(o), |Continuations(csid, o, payload, cursor, r.chunkSize)|, tail), csid,
                 Message(o.typeId, o.streamId, o.timestamp, payload))
    decreases |payload| - cursor
  {
    hide ReadChunk, ContinuationChunk, StateOk;
    var n := r.chunkSize;
    var first := ContinuationChunk(csid, o, payload, cursor, n);
    var others := Continuations(csid, o, payload, cursor + n, n);
    Assoc3(first, others, tail);
    ContinuationRead(r, csid, o, payload, cursor, others + tail);
    if cursor + n < |payload| {
      var r1 := Moved(r, csid, Mirror(o).(partial := payload[..cursor + n]), |first|, others + tail);
      ContinuationsRead(r1, csid, o, payload, cursor + n, tail);
      assert r1.states[csid := Mirror(o)] == r.states[csid := Mirror(o)];
    } else {
      assert others + tail == tail;
    }
  }

  /** A reader in step takes exactly the octets of a message, in any format that fits, returns the
      message, and ends up in step with the writer. */
  lemma MessageRead(r: Reader, fmt: nat, csid: nat, o: OutState, m: Message, tail: seq<byte>)
    requires ReaderOk(r) && CsidInRange(csid)
    requires |m.payload| < 0x100_0000 && Fits(fmt, o, m) && Synced(o, Lookup(r.states, csid))
    requires r.wire.rest == Encoding(fmt, csid, o, m, r.chunkSize) + tail
    ensures ReadMessage(r)
         == Done(Moved(r, csid, Mirror(Commit(fmt, o, m)), |Encoding(fmt, csid, o, m, r.chunkSize)|, tail), csid, m)
  {
    hide ReadChunk, HeadChunk, StateOk, Synced;
    var n, o1 := r.chunkSize, Commit(fmt, o, m);
    var first := HeadChunk(fmt, csid, o, m, n);
    var others := Continuations(csid, o1, m.payload, n, n);
    Assoc3(first, others, tail);
    HeadChunkRead(r, fmt, csid, o, m, others + tail);
    if n < |m.payload| {
      var r1 := Moved(r, csid, Mirror(o1).(partial := m.payload[..n]), |first|, others + tail);
      ContinuationsRead(r1, csid, o1, m.payload, n, tail);
      assert r1.states[csid := Mirror(o1)] == r.states[csid := Mirror(o1)];
    } else {
      assert others + tail == tail;
    }
  }
}
