/** The chunk stream of RTMP: what one chunk writer emits and what one chunk
    reader makes of it, as functions of their per-stream memories. */
module ChunkModel {
  import opened Bytes

  const DEFAULT_CHUNK_SIZE := 128
  const MAX_CHUNK_SIZE := 0xFF_FFFF
  /** The 24-bit value that announces a 32-bit timestamp field. */
  const EXTENDED := 0xFF_FFFF

  datatype Message = Message(typeId: byte, streamId: u32, timestamp: u32, payload: seq<byte>)

  datatype Error = Eof | InvalidChunk | ProtocolViolation

  /** The nearest size allowed: sizes in range are kept. */
  function ClampChunkSize(size: nat): (n: nat)
    ensures 1 <= n <= MAX_CHUNK_SIZE == 0xFF_FFFF
    ensures 1 <= size <= 0xFF_FFFF ==> n == size
  {
    if size < 1 then 1 else if size > MAX_CHUNK_SIZE then MAX_CHUNK_SIZE else size
  }

  // ---------------------------------------------------------------- reading

  /** What is left of the inbound stream and the true count of octets consumed from it;
      the reader's own counter holds that count modulo 2^32. */
  datatype Wire = Wire(rest: seq<byte>, received: nat)

  datatype Io<+T> = Ok(value: T, wire: Wire) | Fail(error: Error, wire: Wire) {
    predicate IsFailure() {
      Fail?
    }
    function PropagateFailure<U>(): Io<U>
      requires Fail?
    {
      Fail(error, wire)
    }
    function Extract(): (T, Wire)
      requires Ok?
    {
      (value, wire)
    }
  }

  /** A read that comes up short drains the stream and is not charged to the counter. */
  function ReadExact(w: Wire, n: nat): Io<seq<byte>> {
    if |w.rest| < n then Fail(Eof, Wire([], w.received))
    else Ok(w.rest[..n], Wire(w.rest[n..], w.received + n))
  }

  function ReadBE(w: Wire, n: nat): (r: Io<nat>)
    ensures r.Ok? ==> r.value < Pow256(n)
  {
    var (b, w1) :- ReadExact(w, n);
    Ok(UnBE(b), w1)
  }

  function ReadU8(w: Wire): Io<byte> {
    var (b, w1) :- ReadExact(w, 1);
    Ok(b[0], w1)
  }

  function ReadU24(w: Wire): Io<u24> {
    Widths();
    ReadBE(w, 3)
  }

  function ReadU32(w: Wire): Io<u32> {
    Widths();
    ReadBE(w, 4)
  }

  function ReadStreamId(w: Wire): Io<u32> {
    Widths();
    var (b, w1) :- ReadExact(w, 4);
    Ok(UnLE(b), w1)
  }

  /** The chunk stream id and the 2-bit format of the next chunk. */
  function ReadBasicHeader(w: Wire): (r: Io<(nat, nat)>)
    ensures r.Ok? ==> |r.wire.rest| < |w.rest| && r.value.1 < 4
  {
    var (b, w1) :- ReadU8(w);
    var fmt, low := b / 64, b % 64;
    if low == 0 then
      var (b1, w2) :- ReadU8(w1);
      Ok((b1 + 64, fmt), w2)
    else if low == 1 then
      var (b2, w2) :- ReadExact(w1, 2);
      var csid: nat := b2[0] as int + b2[1] as int * 256 + 64;
      Ok((csid, fmt), w2)
    else
      Ok((low, fmt), w1)
  }

  /** What the reader remembers about one chunk stream. */
  datatype InState = InState(
    typeId: byte, streamId: u32, length: u24, timestamp: u32, lastDelta: u32, hadExt: bool, partial: seq<byte>)

  type InStates = map<nat, InState>

  /** A partly received message is never as long as announced, so what is missing of it is positive. */
  ghost predicate StateOk(st: InState) {
    st.partial == [] || |st.partial| < st.length
  }

  /** A timestamp field, widened when it holds the announcing value. */
  function ReadExtended(field: u24, w: Wire): Io<u32> {
    if field == EXTENDED then ReadU32(w) else Ok(field, w)
  }

  function ReadFmt0(w: Wire): (r: Io<InState>)
    ensures r.Ok? ==> |r.wire.rest| <= |w.rest| && r.value.partial == []
  {
    var (field, w1) :- ReadU24(w);
    var (len, w2) :- ReadU24(w1);
    var (ty, w3) :- ReadU8(w2);
    var (sid, w4) :- ReadStreamId(w3);
    var (ts, w5) :- ReadExtended(field, w4);
    Ok(InState(ty, sid, len, ts, ts, field == EXTENDED, []), w5)
  }

  function ReadFmt1(known: Option<InState>, w: Wire): (r: Io<InState>)
    ensures r.Ok? ==> |r.wire.rest| <= |w.rest| && r.value.partial == []
  {
    var (field, w1) :- ReadU24(w);
    var (len, w2) :- ReadU24(w1);
    var (ty, w3) :- ReadU8(w2);
    var (delta, w4) :- ReadExtended(field, w3);
    if known.None? then Fail(InvalidChunk, w4)
    else
      var st := known.value;
      Ok(InState(ty, st.streamId, len, WrapAdd(st.timestamp, delta), delta, field == EXTENDED, []), w4)
  }

  function ReadFmt2(known: Option<InState>, w: Wire): (r: Io<InState>)
    ensures r.Ok? ==> |r.wire.rest| <= |w.rest| && r.value.partial == []
  {
    var (field, w1) :- ReadU24(w);
    var (delta, w2) :- ReadExtended(field, w1);
    if known.None? then Fail(InvalidChunk, w2)
    else
      var st := known.value;
      Ok(InState(st.typeId, st.streamId, st.length, WrapAdd(st.timestamp, delta), delta, field == EXTENDED, []), w2)
  }

  function ReadFmt3(known: Option<InState>, w: Wire): Io<InState> {
    if known.None? then Fail(InvalidChunk, w)
    else
      var st := known.value;
      var (_, w1) :- if st.hadExt then ReadU32(w) else Ok(0, w);
      Ok(if st.partial == [] then st.(timestamp := WrapAdd(st.timestamp, st.lastDelta)) else st, w1)
  }

  function ReadMessageHeader(fmt: nat, known: Option<InState>, w: Wire): (r: Io<InState>)
    ensures r.Ok? ==> |r.wire.rest| <= |w.rest|
    ensures r.Ok? && (known.Some? ==> StateOk(known.value)) ==> StateOk(r.value)
  {
    if fmt == 0 then ReadFmt0(w)
    else if fmt == 1 then ReadFmt1(known, w)
    else if fmt == 2 then ReadFmt2(known, w)
    else ReadFmt3(known, w)
  }

  function Lookup<T>(m: map<nat, T>, k: nat): Option<T> {
    if k in m then Some(m[k]) else None
  }

  datatype Reader = Reader(chunkSize: nat, states: InStates, wire: Wire)

  const NewReader: seq<byte> -> Reader := stream => Reader(DEFAULT_CHUNK_SIZE, map[], Wire(stream, 0))

  ghost predicate ReaderOk(r: Reader) {
    && 1 <= r.chunkSize <= MAX_CHUNK_SIZE
    && forall c <- r.states :: StateOk(r.states[c])
  }

  /** The outcome of reading a chunk, or chunks up to the end of a message. */
  datatype Step =
    | More(r: Reader)
    | Done(r: Reader, csid: nat, msg: Message)
    | Broken(r: Reader, error: Error)

  /** The payload part of a chunk on `csid`, whose header left the state `st`. */
  function ReadBody(r: Reader, csid: nat, st: InState, w: Wire): (s: Step)
    requires ReaderOk(r) && StateOk(st)
    ensures ReaderOk(s.r) && s.r.chunkSize == r.chunkSize
    ensures |s.r.wire.rest| <= |w.rest|
    ensures s.Done? ==> |s.msg.payload| == st.length
  {
    var take := Min(st.length - |st.partial|, r.chunkSize);
    match ReadExact(w, take)
    case Fail(e, w1) => Broken(Reader(r.chunkSize, r.states[csid := st], w1), e)
    case Ok(b, w1) =>
      var partial := st.partial + b;
      if |partial| >= st.length then
        Done(Reader(r.chunkSize, r.states[csid := st.(partial := [])], w1), csid,
             Message(st.typeId, st.streamId, st.timestamp, partial))
      else
        More(Reader(r.chunkSize, r.states[csid := st.(partial := partial)], w1))
  }

  /** One pass of the reading loop. */
  function ReadChunk(r: Reader): (s: Step)
    requires ReaderOk(r)
    ensures ReaderOk(s.r) && s.r.chunkSize == r.chunkSize
    ensures !s.Broken? ==> |s.r.wire.rest| < |r.wire.rest|
    ensures s.Done? ==> s.csid in s.r.states && |s.msg.payload| == s.r.states[s.csid].length
  {
    match ReadBasicHeader(r.wire)
    case Fail(e, w) => Broken(r.(wire := w), e)
    case Ok((csid, fmt), w) =>
      match ReadMessageHeader(fmt, Lookup(r.states, csid), w)
      case Fail(e, w1) => Broken(r.(wire := w1), e)
      case Ok(st, w1) => ReadBody(r, csid, st, w1)
  }

  /** Chunks are read until one completes a message. */
  function ReadMessage(r: Reader): (s: Step)
    requires ReaderOk(r)
    ensures !s.More?
    ensures ReaderOk(s.r) && s.r.chunkSize == r.chunkSize
    ensures s.Done? ==> |s.r.wire.rest| < |r.wire.rest|
    ensures s.Done? ==> s.csid in s.r.states && |s.msg.payload| == s.r.states[s.csid].length
    decreases |r.wire.rest|
  {
    match ReadChunk(r)
    case More(r1) => ReadMessage(r1)
    case s => s
  }

  /** Dropping the unfinished message on `csid`, if there is one. */
  function AfterAbort(r: Reader, csid: nat): Reader {
    if csid in r.states then r.(states := r.states[csid := r.states[csid].(partial := [])]) else r
  }

  // ---------------------------------------------------------------- writing

  /** What the writer remembers about one chunk stream. */
  datatype OutState = OutState(
    typeId: byte, streamId: u32, length: u32, timestamp: u32, lastDelta: u32, hadExt: bool, primed: bool)

  const FRESH_OUT := OutState(0, 0, 0, 0, 0, false, false)

  type OutStates = map<nat, OutState>

  function OutOf(states: OutStates, csid: nat): OutState {
    if csid in states then states[csid] else FRESH_OUT
  }

  predicate CsidInRange(csid: nat) {
    2 <= csid <= 65599
  }

  function BasicHeader(fmt: nat, csid: nat): seq<byte>
    requires fmt < 4 && CsidInRange(csid)
  {
    if csid < 64 then [fmt * 64 + csid]
    else if csid < 320 then [fmt * 64, csid - 64]
    else [fmt * 64 + 1, (csid - 64) % 256, (csid - 64) / 256]
  }

  function PayloadLength(m: Message): u32 {
    |m.payload| % U32_MOD
  }

  /** The densest of the four header formats. */
  function ChooseFormat(o: OutState, m: Message): (fmt: nat)
    ensures fmt < 4
  {
    if !o.primed || o.streamId != m.streamId || m.timestamp < o.timestamp then 0
    else if o.typeId != m.typeId || o.length != PayloadLength(m) then 1
    else if WrapSub(m.timestamp, o.timestamp) == o.lastDelta then 3
    else 2
  }

  /** The value a header of format `fmt` conveys: a time, a delta, or the delta already known. */
  function TimeField(fmt: nat, o: OutState, m: Message): u32 {
    if fmt == 0 then m.timestamp
    else if fmt == 3 then o.lastDelta
    else WrapSub(m.timestamp, o.timestamp)
  }

  /** Whether every chunk of the message carries the 32-bit field. */
  predicate Extends(fmt: nat, o: OutState, m: Message) {
    if fmt == 3 then o.hadExt else TimeField(fmt, o, m) >= EXTENDED
  }

  /** The writer's memory after sending `m` behind a header of format `fmt`. */
  function Commit(fmt: nat, o: OutState, m: Message): OutState {
    OutState(m.typeId, m.streamId, PayloadLength(m), m.timestamp, TimeField(fmt, o, m), Extends(fmt, o, m), true)
  }

  function ExtField(ext: bool, v: u32): seq<byte> {
    if ext then BE(4, v) else []
  }

  /** The message header of the first chunk, behind its basic header. */
  function MessageHeader(fmt: nat, o: OutState, m: Message): seq<byte> {
    var v := TimeField(fmt, o, m);
    var ext := Extends(fmt, o, m);
    var field := BE(3, if ext then EXTENDED else v);
    if fmt == 0 then
      field + BE(3, PayloadLength(m)) + [m.typeId] + LE(4, m.streamId) + ExtField(ext, v)
    else if fmt == 1 then
      field + BE(3, PayloadLength(m)) + [m.typeId] + ExtField(ext, v)
    else if fmt == 2 then
      field + ExtField(ext, v)
    else
      ExtField(ext, v)
  }

  /** The first chunk of `m`. */
  function HeadChunk(fmt: nat, csid: nat, o: OutState, m: Message, n: nat): seq<byte>
    requires fmt < 4 && CsidInRange(csid)
  {
    BasicHeader(fmt, csid) + MessageHeader(fmt, o, m) + m.payload[..Min(n, |m.payload|)]
  }

  /** The chunk that continues a payload at `cursor`; `o` is the memory its message commits. */
  function ContinuationChunk(csid: nat, o: OutState, payload: seq<byte>, cursor: nat, n: nat): seq<byte>
    requires CsidInRange(csid) && cursor <= |payload|
  {
    BasicHeader(3, csid) + ExtField(o.hadExt, o.lastDelta) + payload[cursor..Min(cursor + n, |payload|)]
  }

  /** All chunks behind the first one. */
  function Continuations(csid: nat, o: OutState, payload: seq<byte>, cursor: nat, n: nat): seq<byte>
    requires CsidInRange(csid) && n >= 1
    decreases |payload| - cursor
  {
    if cursor >= |payload| then []
    else ContinuationChunk(csid, o, payload, cursor, n) + Continuations(csid, o, payload, cursor + n, n)
  }

  /** The octets of `m` when its first chunk has format `fmt`. */
  function Encoding(fmt: nat, csid: nat, o: OutState, m: Message, n: nat): seq<byte>
    requires fmt < 4 && CsidInRange(csid) && n >= 1
  {
    HeadChunk(fmt, csid, o, m, n) + Continuations(csid, Commit(fmt, o, m), m.payload, n, n)
  }
}
