/** The chunk writer and the chunk reader as the objects they are: fields updated in place, loops
    over chunks. Each method is held to the corresponding function of ChunkModel. */
module ChunkStream {
  import opened Bytes
  import opened ChunkModel
  import opened ChunkRuns
  import opened AckWindow

  class ChunkWriter {
    /** Everything written so far. */
    var stream: seq<byte>
    var chunkSize: nat
    var states: OutStates

    ghost predicate Valid()
      reads this
    {
      1 <= chunkSize <= MAX_CHUNK_SIZE
    }

    ghost function View(): Writer
      reads this
    {
      Writer(chunkSize, states)
    }

    constructor ()
      ensures Valid() && stream == [] && View() == NEW_WRITER && chunkSize == 128 && states == map[]
    {
      stream, chunkSize, states := [], DEFAULT_CHUNK_SIZE, map[];
    }

    method SetChunkSize(size: nat)
      modifies this`chunkSize
      ensures Valid() && chunkSize == ClampChunkSize(size)
    {
      chunkSize := if size < 1 then 1 else if size > MAX_CHUNK_SIZE then MAX_CHUNK_SIZE else size;
    }

    method WriteBasicHeader(fmt: nat, csid: nat) returns (error: Option<Error>)
      requires fmt < 4
      modifies this`stream
      ensures CsidInRange(csid) ==> error == None && stream == old(stream) + BasicHeader(fmt, csid)
      ensures !CsidInRange(csid) ==> error == Some(ProtocolViolation) && stream == old(stream)
    {
      if 2 <= csid <= 63 {
        stream := stream + [fmt * 64 + csid];
      } else if 64 <= csid <= 319 {
        stream := stream + [fmt * 64, csid - 64];
      } else if 320 <= csid <= 65599 {
        var v := csid - 64;
        stream := stream + [fmt * 64 + 1, v % 256, v / 256];
      } else {
        return Some(ProtocolViolation);
      }
      error := None;
    }

    /** The message header of a chunk whose format is `fmt`. */
    method WriteHeaderFields(fmt: nat, ts: u32, delta: u32, ext: bool, extValue: u32, m: Message)
      requires fmt < 4
      modifies this`stream
      ensures stream == old(stream) + HeaderFields(fmt, ts, delta, ext, extValue, m)
    {
      hide BE, LE;
      if fmt == 0 {
        stream := stream + BE(3, if ext then EXTENDED else ts);
        stream := stream + BE(3, PayloadLength(m));
        stream := stream + [m.typeId];
        stream := stream + LE(4, m.streamId);
      } else if fmt == 1 {
        stream := stream + BE(3, if ext then EXTENDED else delta);
        stream := stream + BE(3, PayloadLength(m));
        stream := stream + [m.typeId];
      } else if fmt == 2 {
        stream := stream + BE(3, if ext then EXTENDED else delta);
      }
      if ext {
        stream := stream + BE(4, extValue);
      }
    }

    static function HeaderFields(fmt: nat, ts: u32, delta: u32, ext: bool, extValue: u32, m: Message): seq<byte>
      requires fmt < 4
    {
      (if fmt == 0 then BE(3, if ext then EXTENDED else ts) + BE(3, PayloadLength(m)) + [m.typeId] + LE(4, m.streamId)
       else if fmt == 1 then BE(3, if ext then EXTENDED else delta) + BE(3, PayloadLength(m)) + [m.typeId]
       else if fmt == 2 then BE(3, if ext then EXTENDED else delta)
       else [])
      + ExtField(ext, extValue)
    }

    /** Appends the octets of `m` and remembers its header; an id out of range writes nothing. */
    method WriteMessage(csid: nat, m: Message) returns (error: Option<Error>)
      requires Valid()
      modifies this`stream, this`states
      ensures Valid()
      ensures error == None <==> 2 <= csid <= 65599
      ensures CsidInRange(csid) ==>
                && error == None
                && stream == old(stream) + Written(old(View()), csid, m)
                && View() == AfterWriting(old(View()), csid, m)
      ensures !CsidInRange(csid) ==>
                && error == Some(ProtocolViolation)
                && stream == old(stream)
                && states == old(states)[csid := OutOf(old(states), csid)]
    {
      hide BE, LE, BasicHeader, HeaderFields, Encoding, Continuations;
      var prev := if csid in states then states[csid] else FRESH_OUT;
      states := states[csid := prev];
      var delta := WrapSub(m.timestamp, prev.timestamp);
      var fmt: nat;
      if !prev.primed || prev.streamId != m.streamId || m.timestamp < prev.timestamp {
        fmt := 0;
      } else if prev.typeId != m.typeId || prev.length != PayloadLength(m) {
        fmt := 1;
      } else if delta == prev.lastDelta {
        fmt := 3;
      } else {
        fmt := 2;
      }
      var extNeeded := (fmt == 0 && m.timestamp >= EXTENDED) || ((fmt == 1 || fmt == 2) && delta >= EXTENDED);
      var fmt3Ext := if fmt == 3 then prev.hadExt else extNeeded;
      var extValue := if fmt == 0 then m.timestamp else if fmt == 3 then prev.lastDelta else delta;

      ghost var o1 := Commit(fmt, prev, m);
      ghost var start := stream;
      var firstDone, cursor := false, 0;
      while cursor < |m.payload| || !firstDone
        invariant Valid() && chunkSize == old(chunkSize) && states == old(states)[csid := prev]
        invariant cursor <= |m.payload|
        invariant !firstDone ==> cursor == 0 && stream == start
        invariant firstDone ==> CsidInRange(csid)
        invariant firstDone ==> stream + Continuations(csid, o1, m.payload, cursor, chunkSize)
                                == start + Encoding(fmt, csid, prev, m, chunkSize)
        decreases |m.payload| - cursor, !firstDone
      {
        ghost var before := stream;
        var chunkFmt := if !firstDone then fmt else 3;
        error := WriteBasicHeader(chunkFmt, csid);
        if error.Some? {
          return;
        }
        var ext := if chunkFmt == 3 then fmt3Ext else extNeeded;
        WriteHeaderFields(chunkFmt, m.timestamp, delta, ext, extValue, m);
        var end := Min(cursor + chunkSize, |m.payload|);
        stream := stream + m.payload[cursor..end];
        ChunkAppended(csid, fmt, prev, m, start, before, firstDone, cursor, chunkSize);
        cursor := end;
        firstDone := true;
      }

      NothingLeft(csid, o1, m.payload, chunkSize);
      states := states[csid := OutState(m.typeId, m.streamId, PayloadLength(m), m.timestamp,
                                        if fmt == 0 then m.timestamp else delta, fmt3Ext, true)];
      error := None;
    }

    static lemma NothingLeft(csid: nat, o: OutState, payload: seq<byte>, n: nat)
      requires CsidInRange(csid) && n >= 1
      ensures Continuations(csid, o, payload, |payload|, n) == []
    {
    }

    /** One pass of the loop appends one chunk. */
    static lemma ChunkAppended(
      csid: nat, fmt: nat, o: OutState, m: Message, start: seq<byte>, before: seq<byte>,
      firstDone: bool, cursor: nat, n: nat)
      requires CsidInRange(csid) && fmt < 4 && n >= 1 && cursor <= |m.payload|
      requires if firstDone then
                 && cursor < |m.payload|
                 && before + Continuations(csid, Commit(fmt, o, m), m.payload, cursor, n)
                    == start + Encoding(fmt, csid, o, m, n)
               else cursor == 0 && before == start
      ensures var chunkFmt, delta := if firstDone then 3 else fmt, WrapSub(m.timestamp, o.timestamp);
              var fields := HeaderFields(chunkFmt, m.timestamp, delta, Extends(fmt, o, m), TimeField(fmt, o, m), m);
              var end := Min(cursor + n, |m.payload|);
              before + BasicHeader(chunkFmt, csid) + fields + m.payload[cursor..end]
              + Continuations(csid, Commit(fmt, o, m), m.payload, end, n)
              == start + Encoding(fmt, csid, o, m, n)
    {
      hide BE, LE, BasicHeader, ContinuationChunk, HeadChunk;
      var chunkFmt, delta := if firstDone then 3 else fmt, WrapSub(m.timestamp, o.timestamp);
      var fields := HeaderFields(chunkFmt, m.timestamp, delta, Extends(fmt, o, m), TimeField(fmt, o, m), m);
      var end := Min(cursor + n, |m.payload|);
      var o1 := Commit(fmt, o, m);
      var others := Continuations(csid, o1, m.payload, end, n);
      assert others == Continuations(csid, o1, m.payload, cursor + n, n);
      Assoc5(before, BasicHeader(chunkFmt, csid), fields, m.payload[cursor..end], others);
      if firstDone {
        ContinuationFields(csid, fmt, o, m, cursor, n);
      } else {
        HeadFields(csid, fmt, o, m, n);
      }
      Assoc4(BasicHeader(chunkFmt, csid), fields, m.payload[cursor..end], others);
    }

    static lemma HeadFields(csid: nat, fmt: nat, o: OutState, m: Message, n: nat)
      requires CsidInRange(csid) && fmt < 4 && n >= 1
      ensures HeadChunk(fmt, csid, o, m, n)
           == BasicHeader(fmt, csid)
              + HeaderFields(fmt, m.timestamp, WrapSub(m.timestamp, o.timestamp), Extends(fmt, o, m), TimeField(fmt, o, m), m)
              + m.payload[0..Min(n, |m.payload|)]
    {
      hide BE, LE, BasicHeader;
      assert MessageHeader(fmt, o, m)
          == HeaderFields(fmt, m.timestamp, WrapSub(m.timestamp, o.timestamp), Extends(fmt, o, m), TimeField(fmt, o, m), m);
    }

    static lemma ContinuationFields(csid: nat, fmt: nat, o: OutState, m: Message, cursor: nat, n: nat)
      requires CsidInRange(csid) && fmt < 4 && n >= 1 && cursor <= |m.payload|
      ensures ContinuationChunk(csid, Commit(fmt, o, m), m.payload, cursor, n)
           == BasicHeader(3, csid)
              + HeaderFields(3, m.timestamp, WrapSub(m.timestamp, o.timestamp), Extends(fmt, o, m), TimeField(fmt, o, m), m)
              + m.payload[cursor..Min(cursor + n, |m.payload|)]
    {
      hide BE, LE, BasicHeader;
      assert [] + ExtField(Extends(fmt, o, m), TimeField(fmt, o, m)) == ExtField(Extends(fmt, o, m), TimeField(fmt, o, m));
    }
  }

  datatype Result<+T> = Success(value: T) | Failure(error: Error) {
    predicate IsFailure() {
      Failure?
    }
    function PropagateFailure<U>(): Result<U>
      requires Failure?
    {
      Failure(error)
    }
    function Extract(): T
      requires Success?
    {
      value
    }
  }

  class ChunkReader {
    /** What is left of the inbound stream. */
    var stream: seq<byte>
    var chunkSize: nat
    var states: InStates
    var received: u32
    var window: u32
    var lastAck: u32
    /** The octets received in truth, and at the last rebasing of the acknowledgements. */
    ghost var total: nat
    ghost var mark: nat

    ghost predicate Valid()
      reads this
    {
      ReaderOk(View()) && Tells(Counts(), Truth(total, mark))
    }

    ghost function View(): Reader
      reads this
    {
      Reader(chunkSize, states, Wire(stream, total))
    }

    ghost function Counts(): Counters
      reads this
    {
      Counters(received, window, lastAck)
    }

    /** The counters follow the octets consumed, and nothing but octets was consumed. */
    twostate predicate OnlyRead()
      reads this
    {
      && Valid() && old(total) <= total
      && chunkSize == old(chunkSize) && window == old(window) && lastAck == old(lastAck) && mark == old(mark)
    }

    /** The outcome `r` and the new stream are those of `io`. */
    ghost predicate Matches<T>(io: Io<T>, r: Result<T>)
      reads this
    {
      match io
      case Ok(v, w) => r == Success(v) && Wire(stream, total) == w
      case Fail(e, w) => r == Failure(e) && Wire(stream, total) == w
    }

    constructor (input: seq<byte>)
      ensures Valid() && View() == NewReader(input) && Counts() == Counters(0, 0, 0) && mark == 0 && chunkSize == 128 && states == map[]
    {
      stream, chunkSize, states := input, DEFAULT_CHUNK_SIZE, map[];
      received, window, lastAck, total, mark := 0, 0, 0, 0, 0;
    }

    method SetChunkSize(size: nat)
      requires Valid()
      modifies this`chunkSize
      ensures Valid() && chunkSize == ClampChunkSize(size)
    {
      chunkSize := if size < 1 then 1 else if size > MAX_CHUNK_SIZE then MAX_CHUNK_SIZE else size;
    }

    /** Adopting a window forgives what was received before it. */
    method SetWindowAckSize(size: u32)
      requires Valid()
      modifies this`window, this`lastAck, this`mark
      ensures Valid()
      ensures Counts() == Next(old(Counts()), SetWindow(size))
      ensures Truth(total, mark) == TrueNext(old(Counts()), old(Truth(total, mark)), SetWindow(size))
    {
      window := size;
      lastAck := received;
      mark := total;
    }

    /** The number to acknowledge if an acknowledgement is due. */
    method PollAck() returns (ack: Option<u32>)
      requires Valid()
      modifies this`lastAck, this`mark
      ensures Valid()
      ensures ack == if AckDue(old(Counts())) then Some(total % U32_MOD) else None
      ensures Counts() == Next(old(Counts()), Poll)
      ensures Truth(total, mark) == TrueNext(old(Counts()), old(Truth(total, mark)), Poll)
    {
      if window == 0 {
        return None;
      }
      var since := WrapSub(received, lastAck);
      if since >= window {
        lastAck := received;
        mark := total;
        ack := Some(received);
      } else {
        ack := None;
      }
    }

    /** Drops what has arrived of an unfinished message, and nothing else. */
    method AbortPartial(csid: nat) returns (discarded: bool)
      requires Valid()
      modifies this`states
      ensures Valid()
      ensures discarded <==> csid in old(states) && old(states)[csid].partial != []
      ensures View() == AfterAbort(old(View()), csid)
      ensures states.Keys == old(states).Keys && forall c <- old(states) | c != csid :: states[c] == old(states)[c]
    {
      discarded := false;
      if csid in states && states[csid].partial != [] {
        states := states[csid := states[csid].(partial := [])];
        discarded := true;
      }
    }

    method ReadExactCounted(n: nat) returns (r: Result<seq<byte>>)
      requires Valid()
      modifies this`stream, this`received, this`total
      ensures OnlyRead() && Matches(ReadExact(old(View()).wire, n), r)
    {
      if |stream| < n {
        stream := [];
        return Failure(Eof);
      }
      r := Success(stream[..n]);
      TellsNext(Counts(), Truth(total, mark), Arrive(n));
      received := (received + n) % U32_MOD;
      total := total + n;
      stream := stream[n..];
    }

    method ReadU8Counted() returns (r: Result<byte>)
      requires Valid()
      modifies this`stream, this`received, this`total
      ensures OnlyRead() && Matches(ReadU8(old(View()).wire), r)
    {
      var b :- ReadExactCounted(1);
      r := Success(b[0]);
    }

    method ReadU24Counted() returns (r: Result<u24>)
      requires Valid()
      modifies this`stream, this`received, this`total
      ensures OnlyRead() && Matches(ReadU24(old(View()).wire), r)
    {
      Widths();
      var b :- ReadExactCounted(3);
      r := Success(UnBE(b));
    }

    method ReadU32Counted() returns (r: Result<u32>)
      requires Valid()
      modifies this`stream, this`received, this`total
      ensures OnlyRead() && Matches(ReadU32(old(View()).wire), r)
    {
      Widths();
      var b :- ReadExactCounted(4);
      r := Success(UnBE(b));
    }

    method ReadStreamIdCounted() returns (r: Result<u32>)
      requires Valid()
      modifies this`stream, this`received, this`total
      ensures OnlyRead() && Matches(ReadStreamId(old(View()).wire), r)
    {
      Widths();
      var b :- ReadExactCounted(4);
      r := Success(UnLE(b));
    }

    method ReadBasic() returns (r: Result<(nat, nat)>)
      requires Valid()
      modifies this`stream, this`received, this`total
      ensures OnlyRead() && Matches(ReadBasicHeader(old(View()).wire), r)
    {
      hide ReaderOk, Tells;
      var b :- ReadU8Counted();
      var fmt, low := b / 64, b % 64;
      if low == 0 {
        var b1 :- ReadU8Counted();
        r := Success((b1 as int + 64, fmt));
      } else if low == 1 {
        var b2 :- ReadExactCounted(2);
        r := Success((b2[0] as int + b2[1] as int * 256 + 64, fmt));
      } else {
        r := Success((low, fmt));
      }
    }

    /** The outcome of a message header on `csid`: its new state is stored on success only. */
    twostate predicate Stored(io: Io<InState>, csid: nat, new r: Result<()>)
      reads this
    {
      match io
      case Ok(st, w) => r.Success? && Wire(stream, total) == w && states == old(states)[csid := st]
      case Fail(e, w) => r == Failure(e) && Wire(stream, total) == w && states == old(states)
    }

    method ReadExtendedCounted(field: u24) returns (r: Result<u32>)
      requires Valid()
      modifies this`stream, this`received, this`total
      ensures OnlyRead() && Matches(ReadExtended(field, old(View()).wire), r)
    {
      if field == EXTENDED {
        r := ReadU32Counted();
      } else {
        r := Success(field);
      }
    }

    method ReadFmt0Header(csid: nat) returns (r: Result<()>)
      requires Valid()
      modifies this`stream, this`received, this`total, this`states
      ensures OnlyRead() && Stored(ReadFmt0(old(View()).wire), csid, r)
    {
      hide ReadU24, ReadU8, ReadStreamId, ReadExtended, Tells;
      var field :- ReadU24Counted();
      var len :- ReadU24Counted();
      var ty :- ReadU8Counted();
      var sid :- ReadStreamIdCounted();
      var ts :- ReadExtendedCounted(field);
      states := states[csid := InState(ty, sid, len, ts, ts, field == EXTENDED, [])];
      r := Success(());
    }

    method ReadFmt1Header(csid: nat) returns (r: Result<()>)
      requires Valid()
      modifies this`stream, this`received, this`total, this`states
      ensures OnlyRead() && Stored(ReadFmt1(Lookup(old(states), csid), old(View()).wire), csid, r)
    {
      hide ReadU24, ReadU8, ReadExtended, Tells;
      var field :- ReadU24Counted();
      var len :- ReadU24Counted();
      var ty :- ReadU8Counted();
      var delta :- ReadExtendedCounted(field);
      if csid !in states {
        return Failure(InvalidChunk);
      }
      var st := states[csid];
      states := states[csid := st.(typeId := ty, length := len, timestamp := WrapAdd(st.timestamp, delta),
                                   lastDelta := delta, hadExt := field == EXTENDED, partial := [])];
      r := Success(());
    }

    method ReadFmt2Header(csid: nat) returns (r: Result<()>)
      requires Valid()
      modifies this`stream, this`received, this`total, this`states
      ensures OnlyRead() && Stored(ReadFmt2(Lookup(old(states), csid), old(View()).wire), csid, r)
    {
      hide ReadU24, ReadExtended, Tells;
      var field :- ReadU24Counted();
      var delta :- ReadExtendedCounted(field);
      if csid !in states {
        return Failure(InvalidChunk);
      }
      var st := states[csid];
      states := states[csid := st.(timestamp := WrapAdd(st.timestamp, delta), lastDelta := delta,
                                   hadExt := field == EXTENDED, partial := [])];
      r := Success(());
    }

    method ReadFmt3Header(csid: nat) returns (r: Result<()>)
      requires Valid()
      modifies this`stream, this`received, this`total, this`states
      ensures OnlyRead() && Stored(ReadFmt3(Lookup(old(states), csid), old(View()).wire), csid, r)
    {
      hide ReadU32, Tells;
      if csid !in states {
        return Failure(InvalidChunk);
      }
      var hadExt, partialEmpty, lastDelta := states[csid].hadExt, states[csid].partial == [], states[csid].lastDelta;
      if hadExt {
        var _ :- ReadU32Counted();
      }
      if partialEmpty {
        states := states[csid := states[csid].(timestamp := WrapAdd(states[csid].timestamp, lastDelta))];
      } else {
        assert states == states[csid := states[csid]];
      }
      r := Success(());
    }

    method ReadHeader(csid: nat, fmt: nat) returns (r: Result<()>)
      requires Valid() && fmt < 4
      modifies this`stream, this`received, this`total, this`states
      ensures OnlyRead() && Stored(ReadMessageHeader(fmt, Lookup(old(states), csid), old(View()).wire), csid, r)
    {
      hide ReadFmt0, ReadFmt1, ReadFmt2, ReadFmt3;
      if fmt == 0 {
        r := ReadFmt0Header(csid);
      } else if fmt == 1 {
        r := ReadFmt1Header(csid);
      } else if fmt == 2 {
        r := ReadFmt2Header(csid);
      } else {
        r := ReadFmt3Header(csid);
      }
    }

    /** The payload share of a chunk on `csid`; the message, if it is now complete. */
    method ReadPayload(csid: nat) returns (r: Result<Option<Message>>)
      requires Valid() && csid in states
      modifies this`stream, this`received, this`total, this`states
      ensures OnlyRead()
      ensures var s := ReadBody(old(View()), csid, old(states)[csid], old(View()).wire);
              && View() == s.r
              && match s
                 case More(_) => r == Success(None)
                 case Done(_, _, m) => r == Success(Some(m))
                 case Broken(_, e) => r == Failure(e)
    {
      hide Tells;
      var state := states[csid];
      assert states == states[csid := state];
      var take := Min(state.length - |state.partial|, chunkSize);
      var b :- ReadExactCounted(take);
      var partial := state.partial + b;
      if |partial| >= state.length {
        states := states[csid := state.(partial := [])];
        r := Success(Some(Message(state.typeId, state.streamId, state.timestamp, partial)));
      } else {
        states := states[csid := state.(partial := partial)];
        r := Success(None);
      }
    }

    /** Reads chunks, of any chunk streams, until one completes a message. */
    method ReadMessage() returns (r: Result<Message>)
      requires Valid()
      modifies this`stream, this`received, this`total, this`states
      ensures OnlyRead()
      ensures var s := ChunkModel.ReadMessage(old(View()));
              && View() == s.r
              && r == if s.Done? then Success(s.msg) else Failure(s.error)
    {
      hide Tells, ReaderOk, ReadBasicHeader, ReadMessageHeader, ReadBody;
      while true
        invariant OnlyRead()
        invariant ChunkModel.ReadMessage(View()) == ChunkModel.ReadMessage(old(View()))
        decreases |stream|
      {
        ghost var r0 := View();
        var head :- ReadBasic();
        var (csid, fmt) := head;
        var _ :- ReadHeader(csid, fmt);
        BodySameStates(r0, View(), csid);
        var msg :- ReadPayload(csid);
        if msg.Some? {
          return Success(msg.value);
        }
      }
    }

    /** Storing the header before reading the payload makes no difference. */
    static lemma BodySameStates(r0: Reader, r1: Reader, csid: nat)
      requires ReaderOk(r0) && ReaderOk(r1) && csid in r1.states
      requires r1.chunkSize == r0.chunkSize && r1.states == r0.states[csid := r1.states[csid]]
      ensures ReadBody(r1, csid, r1.states[csid], r1.wire) == ReadBody(r0, csid, r1.states[csid], r1.wire)
    {
      var st, w := r1.states[csid], r1.wire;
      Overwrite(r0.states, csid, st, st);
      Overwrite(r0.states, csid, st, st.(partial := []));
      var take := Min(st.length - |st.partial|, r1.chunkSize);
      if take <= |w.rest| {
        Overwrite(r0.states, csid, st, st.(partial := st.partial + w.rest[..take]));
      }
    }

    static lemma Overwrite(m: InStates, k: nat, v: InState, v1: InState)
      ensures m[k := v][k := v1] == m[k := v1]
    {
    }
  }
}
