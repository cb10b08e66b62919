/** Whole sessions over one connection: messages sent one after another while the chunk size
    changes, and chunks of independent streams interleaved at will. */
module ChunkRuns {
  import opened Bytes
  import opened ChunkModel
  import opened ChunkSync

  // ------------------------------------------------ one message after another

  datatype Writer = Writer(chunkSize: nat, states: OutStates)

  const NEW_WRITER := Writer(DEFAULT_CHUNK_SIZE, map[])

  const MSG_SET_CHUNK_SIZE: byte := 1
  const CSID_PROTOCOL_CONTROL := 2

  ghost predicate WriterOk(w: Writer) {
    1 <= w.chunkSize <= MAX_CHUNK_SIZE
  }

  /** The octets of the next message on `csid`. */
  function Written(w: Writer, csid: nat, m: Message): seq<byte>
    requires WriterOk(w) && CsidInRange(csid)
  {
    var o := OutOf(w.states, csid);
    Encoding(ChooseFormat(o, m), csid, o, m, w.chunkSize)
  }

  function AfterWriting(w: Writer, csid: nat, m: Message): Writer {
    var o := OutOf(w.states, csid);
    w.(states := w.states[csid := Commit(ChooseFormat(o, m), o, m)])
  }

  /** What a peer does with its end of the connection. */
  datatype Op =
    | Send(csid: nat, msg: Message)
    /** Announce a chunk size in band, then use it. */
    | Announce(size: u32)
    /** Both ends change the chunk size at the same message boundary. */
    | Resize(limit: nat)

  /** The announcement carries 31 bits, while the sender goes by all 32. */
  predicate Announceable(size: u32) {
    size < 0x8000_0000 || size % 0x8000_0000 >= MAX_CHUNK_SIZE
  }

  /** The chunk size a message makes the receiving end use. */
  function SizeAfter(m: Message, current: nat): nat {
    if m.typeId == MSG_SET_CHUNK_SIZE && |m.payload| >= 4
    then ClampChunkSize(UnBE(m.payload[..4]) % 0x8000_0000) else current
  }

  predicate Sendable(op: Op) {
    op.Send? ==> CsidInRange(op.csid)
  }

  /** Payloads that fit their length field; and a message that would change the chunk size of the
      receiving end only may be sent where it changes nothing. */
  predicate OpOk(w: Writer, op: Op) {
    match op
    case Send(csid, m) => CsidInRange(csid) && |m.payload| < 0x100_0000 && SizeAfter(m, w.chunkSize) == w.chunkSize
    case Announce(size) => Announceable(size)
    case Resize(_) => true
  }

  predicate RunOk(w: Writer, ops: seq<Op>)
    requires WriterOk(w)
    decreases |ops|
  {
    ops == [] || (OpOk(w, ops[0]) && RunOk(AfterOp(w, ops[0]), ops[1..]))
  }

  function OpMessage(op: Op): Message
    requires !op.Resize?
  {
    match op
    case Send(_, m) => m
    case Announce(size) => Message(MSG_SET_CHUNK_SIZE, 0, 0, BE(4, size % 0x8000_0000))
  }

  function OpCsid(op: Op): nat
    requires !op.Resize?
  {
    match op
    case Send(csid, _) => csid
    case Announce(_) => CSID_PROTOCOL_CONTROL
  }

  function OpOctets(w: Writer, op: Op): seq<byte>
    requires WriterOk(w) && Sendable(op)
  {
    if op.Resize? then [] else Written(w, OpCsid(op), OpMessage(op))
  }

  function AfterOp(w: Writer, op: Op): (w1: Writer)
    requires WriterOk(w)
    ensures WriterOk(w1)
  {
    match op
    case Send(csid, m) => AfterWriting(w, csid, m)
    case Announce(size) => AfterWriting(w, OpCsid(op), OpMessage(op)).(chunkSize := ClampChunkSize(size))
    case Resize(limit) => w.(chunkSize := ClampChunkSize(limit))
  }

  function Transmitted(w: Writer, ops: seq<Op>): seq<byte>
    requires WriterOk(w) && forall op <- ops :: Sendable(op)
    decreases |ops|
  {
    if ops == [] then [] else OpOctets(w, ops[0]) + Transmitted(AfterOp(w, ops[0]), ops[1..])
  }

  function AfterOps(w: Writer, ops: seq<Op>): Writer
    requires WriterOk(w)
    decreases |ops|
  {
    if ops == [] then w else AfterOps(AfterOp(w, ops[0]), ops[1..])
  }

  /** The messages of a run, in order. */
  function Messages(ops: seq<Op>): seq<Message> {
    if ops == [] then []
    else (if ops[0].Resize? then [] else [OpMessage(ops[0])]) + Messages(ops[1..])
  }

  /** The receiving end applies an announced chunk size as soon as it has the announcement. */
  function React(r: Reader, m: Message): Reader {
    r.(chunkSize := SizeAfter(m, r.chunkSize))
  }

  /** What the receiving end has to know of a run: where a message is due, and where both ends change
      the chunk size. */
  function Turns(ops: seq<Op>): seq<Option<nat>> {
    if ops == [] then []
    else [if ops[0].Resize? then Some(ops[0].limit) else None] + Turns(ops[1..])
  }

  /** The messages and the reader after these turns, if all reads succeed. */
  function Receive(r: Reader, turns: seq<Option<nat>>): (res: Option<(seq<Message>, Reader)>)
    requires ReaderOk(r)
    decreases |turns|
  {
    if turns == [] then Some(([], r))
    else if turns[0].Some? then Receive(r.(chunkSize := ClampChunkSize(turns[0].value)), turns[1..])
    else
      match ReadMessage(r)
      case Done(r1, _, m) =>
        (match Receive(React(r1, m), turns[1..])
         case None => None
         case Some((ms, r2)) => Some(([m] + ms, r2)))
      case _ => None
  }

  /** Both ends use the same chunk size and agree on every chunk stream in use. */
  ghost predicate InStep(w: Writer, r: Reader) {
    && w.chunkSize == r.chunkSize
    && forall c <- w.states :: Synced(w.states[c], Lookup(r.states, c))
  }

  /** A message arrives and leaves both ends in step exactly when it may be sent. */
  lemma OpExact(w: Writer, r: Reader, op: Op, tail: seq<byte>)
    requires WriterOk(w) && ReaderOk(r) && InStep(w, r) && Sendable(op) && !op.Resize?
    requires r.wire.rest == OpOctets(w, op) + tail
    ensures var s := ReadMessage(r);
            && (s.Done? && s.msg == OpMessage(op) && InStep(AfterOp(w, op), React(s.r, s.msg)) <==> OpOk(w, op))
            && (OpOk(w, op) ==> s.csid == OpCsid(op) && s.r.wire == Wire(tail, r.wire.received + |OpOctets(w, op)|))
  {
    hide Encoding, ReadMessage, ReaderOk, BE, UnBE, ChooseFormat, SizeAfter, Announceable;
    var csid, m := OpCsid(op), OpMessage(op);
    var o := OutOf(w.states, csid);
    var fmt := ChooseFormat(o, m);
    ChosenFormatFits(o, m);
    if |m.payload| < 0x100_0000 {
      MessageRead(r, fmt, csid, o, m, tail);
    } else {
      RoundTripIff(w, r, csid, m, tail);
    }
    if op.Announce? {
      Announced(op.size, w.chunkSize);
    }
  }

  /** What the receiving end makes of an announcement. */
  lemma Announced(size: u32, current: nat)
    ensures OpCsid(Announce(size)) == 2 && OpMessage(Announce(size)) == Message(1, 0, 0, UI32(size % 0x8000_0000))
    ensures SizeAfter(OpMessage(Announce(size)), current) == ClampChunkSize(size % 0x8000_0000)
    ensures ClampChunkSize(size % 0x8000_0000) == ClampChunkSize(size) <==> Announceable(size)
  {
    hide BE, UnBE;
    Widths();
    var payload := BE(4, size % 0x8000_0000);
    UI32Is(size % 0x8000_0000);
    UnBEInvertsBE(4, size % 0x8000_0000);
    assert payload[..4] == payload;
  }

  /** What any message makes the receiving end use: an announcement, whoever made it, the 31 low bits of
      its first four octets, between 1 and the largest chunk size; any other message changes nothing. */
  lemma SizeMeans(m: Message, current: nat)
    ensures SizeAfter(m, current) ==
            if m.typeId != 1 || |m.payload| < 4 then current
            else
              var p := m.payload;
              var size := (p[0] as int) % 128 * 0x100_0000 + (p[1] as int) * 0x1_0000 + (p[2] as int) * 0x100 + p[3];
              if size == 0 then 1 else if size > 0xFF_FFFF then 0xFF_FFFF else size
  {
    hide UnBE;
    if |m.payload| >= 4 {
      Masked(m.payload[..4]);
    }
  }

  lemma Masked(p: seq<byte>)
    requires |p| == 4
    ensures UnBE(p) % 0x8000_0000 == (p[0] as int) % 128 * 0x100_0000 + (p[1] as int) * 0x1_0000 + (p[2] as int) * 0x100 + p[3]
  {
    var low := (p[1] as int) * 0x1_0000 + (p[2] as int) * 0x100 + p[3];
    assert UnBE(p) == (p[0] as int) * 0x100_0000 + low by {
      assert p[..3][..2] == p[..2] && p[..2][..1] == p[..1] && p[..1][..0] == [];
      assert UnBE(p[..1]) == p[0];
      assert UnBE(p[..2]) == UnBE(p[..1]) * 256 + p[1];
      assert UnBE(p[..3]) == UnBE(p[..2]) * 256 + p[2];
    }
    HighBitOff(p[0], low);
  }

  lemma HighBitOff(high: byte, low: nat)
    requires low < 0x100_0000
    ensures ((high as int) * 0x100_0000 + low) % 0x8000_0000 == (high as int) % 128 * 0x100_0000 + low
  {
    assert (high as int) == high / 128 * 128 + high % 128;
  }

  /** Announcing a chunk size leaves both ends with the same one exactly when the size fits 31 bits, or
      what is left of it is beyond the largest chunk size anyway. */
  lemma AnnounceIff(w: Writer, r: Reader, size: u32, tail: seq<byte>)
    requires WriterOk(w) && ReaderOk(r) && InStep(w, r)
    requires r.wire.rest == Written(w, CSID_PROTOCOL_CONTROL, OpMessage(Announce(size))) + tail
    ensures var s := ReadMessage(r);
            && s.Done? && s.msg == OpMessage(Announce(size))
            && (InStep(AfterOp(w, Announce(size)), React(s.r, s.msg)) <==> Announceable(size))
  {
    hide Encoding, ReadMessage, ReaderOk, BE, UnBE, ChooseFormat, Announceable, SizeAfter;
    var m := OpMessage(Announce(size));
    var o := OutOf(w.states, CSID_PROTOCOL_CONTROL);
    ChosenFormatFits(o, m);
    MessageRead(r, ChooseFormat(o, m), CSID_PROTOCOL_CONTROL, o, m, tail);
    Announced(size, r.chunkSize);
  }

  /** Announcing 2^31 on a fresh connection desynchronizes it: the receiver goes down to one octet a
      chunk, the sender up to the largest size. */
  lemma AnnounceCanFail()
    ensures var op := Announce(0x8000_0000);
            var s := ReadMessage(NewReader(OpOctets(NEW_WRITER, op)));
            && s.Done? && s.msg == OpMessage(op)
            && AfterOp(NEW_WRITER, op).chunkSize == MAX_CHUNK_SIZE && React(s.r, s.msg).chunkSize == 1
            && !InStep(AfterOp(NEW_WRITER, op), React(s.r, s.msg))
  {
    hide ReadMessage, Written, SizeAfter, BE;
    var octets := OpOctets(NEW_WRITER, Announce(0x8000_0000));
    assert octets + [] == octets;
    AnnounceIff(NEW_WRITER, NewReader(octets), 0x8000_0000, []);
    Announced(0x8000_0000, DEFAULT_CHUNK_SIZE);
    Announced(0x8000_0000, ReadMessage(NewReader(octets)).r.chunkSize);
  }

  /** For every sequence of messages, on any chunk streams, with any times and payloads, mixed with
      chunk sizes announced or agreed on, the reader returns exactly the messages written, in order,
      takes exactly the octets written, and both ends agree on every chunk stream afterwards. */
  lemma {:induction false} SessionRoundTrip(w: Writer, r: Reader, ops: seq<Op>, tail: seq<byte>)
    requires WriterOk(w) && ReaderOk(r) && InStep(w, r) && RunOk(w, ops) && forall op <- ops :: Sendable(op)
    requires r.wire.rest == Transmitted(w, ops) + tail
    ensures var res := Receive(r, Turns(ops));
            && res.Some? && res.value.0 == Messages(ops)
            && res.value.1.wire == Wire(tail, r.wire.received + |Transmitted(w, ops)|)
            && InStep(AfterOps(w, ops), res.value.1)
    decreases |ops|
  {
    hide ReadMessage, OpOctets, React, OpMessage, AfterOp, OpOk, InStep;
    if ops == [] {
      assert Transmitted(w, ops) + tail == tail;
    } else {
      var others := Transmitted(AfterOp(w, ops[0]), ops[1..]);
      assert Turns(ops)[1..] == Turns(ops[1..]);
      Assoc3(OpOctets(w, ops[0]), others, tail);
      if ops[0].Resize? {
        Resized(w, r, ops[0]);
        assert [] + (others + tail) == others + tail;
        SessionRoundTrip(AfterOp(w, ops[0]), r.(chunkSize := ClampChunkSize(ops[0].limit)), ops[1..], tail);
      } else {
        OpExact(w, r, ops[0], others + tail);
        var s := ReadMessage(r);
        ReactOk(s.r, s.msg);
        SessionRoundTrip(AfterOp(w, ops[0]), React(s.r, s.msg), ops[1..], tail);
      }
    }
  }

  lemma Resized(w: Writer, r: Reader, op: Op)
    requires WriterOk(w) && ReaderOk(r) && op.Resize? && InStep(w, r)
    ensures OpOctets(w, op) == []
    ensures var r1 := r.(chunkSize := ClampChunkSize(op.limit));
            ReaderOk(r1) && r1.wire == r.wire && InStep(AfterOp(w, op), r1)
  {
  }

  lemma ReactOk(r: Reader, m: Message)
    requires ReaderOk(r)
    ensures ReaderOk(React(r, m)) && React(r, m).wire == r.wire
  {
  }

  /** In particular from two freshly opened ends. */
  lemma FreshSessionRoundTrip(ops: seq<Op>)
    requires RunOk(NEW_WRITER, ops) && forall op <- ops :: Sendable(op)
    ensures var res := Receive(NewReader(Transmitted(NEW_WRITER, ops)), Turns(ops));
            && res.Some? && res.value.0 == Messages(ops)
            && res.value.1.wire == Wire([], |Transmitted(NEW_WRITER, ops)|)
            && InStep(AfterOps(NEW_WRITER, ops), res.value.1)
  {
    var octets := Transmitted(NEW_WRITER, ops);
    assert octets + [] == octets;
    SessionRoundTrip(NEW_WRITER, NewReader(octets), ops, []);
  }

  /** Payloads of 2^24 octets or more are exactly those that cannot arrive. */
  lemma RoundTripIff(w: Writer, r: Reader, csid: nat, m: Message, tail: seq<byte>)
    requires WriterOk(w) && ReaderOk(r) && InStep(w, r) && CsidInRange(csid)
    requires r.wire.rest == Written(w, csid, m) + tail
    ensures var s := ReadMessage(r);
            (s.Done? && s.msg == m) <==> |m.payload| < 0x100_0000
  {
    if |m.payload| < 0x100_0000 {
      var o := OutOf(w.states, csid);
      ChosenFormatFits(o, m);
      MessageRead(r, ChooseFormat(o, m), csid, o, m, tail);
    }
  }

  // ------------------------------------------------- any stream, any calls

  datatype Call = Read | Abort(csid: nat) | Resize(size: nat)

  function AfterCall(r: Reader, call: Call): Reader
    requires ReaderOk(r)
  {
    match call
    case Read => ReadMessage(r).r
    case Abort(csid) => AfterAbort(r, csid)
    case Resize(size) => r.(chunkSize := ClampChunkSize(size))
  }

  /** Whatever octets arrive and whatever calls are made, also after failed ones, the reader's
      memory stays sound. */
  function AfterCalls(r: Reader, calls: seq<Call>): (r1: Reader)
    requires ReaderOk(r)
    ensures ReaderOk(r1)
    decreases |calls|
  {
    if calls == [] then r else AfterCalls(AfterCall(r, calls[0]), calls[1..])
  }

  /** No unfinished message ever holds as much as was announced for it; a message returned holds
      exactly as much; and a read that returns one has consumed at least one octet. */
  lemma CallsAreSafe(input: seq<byte>, calls: seq<Call>)
    ensures var r := AfterCalls(NewReader(input), calls);
            && (forall c <- r.states :: r.states[c].partial == [] || |r.states[c].partial| < r.states[c].length)
            && (match ReadMessage(r)
                case Done(r1, csid, m) =>
                  csid in r1.states && |m.payload| == r1.states[csid].length && |r1.wire.rest| < |r.wire.rest|
                case _ => true)
  {
    var r := AfterCalls(NewReader(input), calls);
    forall c <- r.states
      ensures r.states[c].partial == [] || |r.states[c].partial| < r.states[c].length
    {
      assert StateOk(r.states[c]);
    }
  }

  /** A sender that gives up a message halfway and has it aborted is in step again. */
  lemma AbortResyncs(r: Reader, csid: nat, s: Sender)
    requires SenderOk(s) && s.cursor < |s.payload| && Tracks(s, Lookup(r.states, csid))
    ensures Synced(s.out, Lookup(AfterAbort(r, csid).states, csid))
  {
  }

  // --------------------------------------------- chunks of several streams mixed

  /** One chunk on the wire and the message it is the last chunk of, if any. */
  datatype Chunk = Chunk(csid: nat, octets: seq<byte>, completes: Option<Message>)

  function ContinuationChunks(csid: nat, o: OutState, payload: seq<byte>, cursor: nat, n: nat): seq<Chunk>
    requires CsidInRange(csid) && n >= 1
    decreases |payload| - cursor
  {
    if cursor >= |payload| then []
    else
      [Chunk(csid, ContinuationChunk(csid, o, payload, cursor, n),
             if cursor + n >= |payload| then Some(Message(o.typeId, o.streamId, o.timestamp, payload)) else None)]
      + ContinuationChunks(csid, o, payload, cursor + n, n)
  }

  function FirstChunk(csid: nat, o: OutState, m: Message, n: nat): Chunk
    requires CsidInRange(csid)
  {
    Chunk(csid, HeadChunk(ChooseFormat(o, m), csid, o, m, n), if n >= |m.payload| then Some(m) else None)
  }

  /** The chunks of a stream of messages written on `csid` by a writer of its own. */
  function StreamChunks(csid: nat, o: OutState, ms: seq<Message>, n: nat): seq<Chunk>
    requires CsidInRange(csid) && n >= 1
    decreases |ms|
  {
    if ms == [] then []
    else
      var o1 := Commit(ChooseFormat(o, ms[0]), o, ms[0]);
      [FirstChunk(csid, o, ms[0], n)]
      + ContinuationChunks(csid, o1, ms[0].payload, n, n)
      + StreamChunks(csid, o1, ms[1..], n)
  }

  function Octets(chunks: seq<Chunk>): seq<byte> {
    if chunks == [] then [] else chunks[0].octets + Octets(chunks[1..])
  }

  function Only(chunks: seq<Chunk>, csid: nat): seq<Chunk> {
    if chunks == [] then []
    else (if chunks[0].csid == csid then [chunks[0]] else []) + Only(chunks[1..], csid)
  }

  /** The messages whose last chunk occurs, in the order of those chunks. */
  function Completed(chunks: seq<Chunk>): seq<(nat, Message)> {
    if chunks == [] then []
    else
      (if chunks[0].completes.Some? then [(chunks[0].csid, chunks[0].completes.value)] else [])
      + Completed(chunks[1..])
  }

  /** Everything the reader returns before its stream ends. */
  function Deliveries(r: Reader): seq<(nat, Message)>
    requires ReaderOk(r)
    decreases |r.wire.rest|
  {
    match ReadMessage(r)
    case Done(r1, csid, m) => [(csid, m)] + Deliveries(r1)
    case _ => []
  }

  /** A writer on one chunk stream, possibly in the middle of a message. */
  datatype Sender = Sender(out: OutState, payload: seq<byte>, cursor: nat, todo: seq<Message>)

  ghost predicate SenderOk(s: Sender) {
    && (forall m <- s.todo :: |m.payload| < 0x100_0000)
    && (s.cursor < |s.payload| ==> 0 < s.cursor && |s.payload| == s.out.length < 0x100_0000)
  }

  function Remaining(csid: nat, s: Sender, n: nat): seq<Chunk>
    requires CsidInRange(csid) && n >= 1
  {
    ContinuationChunks(csid, s.out, s.payload, s.cursor, n) + StreamChunks(csid, s.out, s.todo, n)
  }

  /** The reader holds the payload sent so far, or nothing between messages. */
  ghost predicate Tracks(s: Sender, known: Option<InState>)
    requires SenderOk(s)
  {
    if s.cursor < |s.payload|
    then known == Some(Mirror(s.out).(partial := s.payload[..s.cursor]))
    else Synced(s.out, known)
  }

  function Advance(s: Sender, n: nat): Sender
    requires s.cursor < |s.payload| || s.todo != []
  {
    if s.cursor < |s.payload| then s.(cursor := s.cursor + n)
    else
      var m := s.todo[0];
      Sender(Commit(ChooseFormat(s.out, m), s.out, m), m.payload, n, s.todo[1..])
  }

  lemma RemainingStep(csid: nat, s: Sender, n: nat)
    requires CsidInRange(csid) && n >= 1 && SenderOk(s) && Remaining(csid, s, n) != []
    ensures s.cursor < |s.payload| || s.todo != []
    ensures SenderOk(Advance(s, n))
    ensures Remaining(csid, s, n)[1..] == Remaining(csid, Advance(s, n), n)
  {
    hide ContinuationChunk, HeadChunk, ChooseFormat;
  }

  /** The reader took the chunk `c` off its stream, moved on `c.csid` only, to where the sender is,
      and delivered a message exactly when the chunk completes one. */
  ghost predicate Follows(r: Reader, step: Step, c: Chunk, s: Sender, tail: seq<byte>)
    requires SenderOk(s)
  {
    && (match c.completes
        case Some(m) => step.Done? && step.csid == c.csid && step.msg == m
        case None => step.More?)
    && step.r.wire.rest == tail
    && c.csid in step.r.states
    && step.r.states == r.states[c.csid := step.r.states[c.csid]]
    && Tracks(s, Some(step.r.states[c.csid]))
  }

  lemma ChunkOfStream(r: Reader, csid: nat, s: Sender, tail: seq<byte>)
    requires ReaderOk(r) && CsidInRange(csid) && SenderOk(s) && Tracks(s, Lookup(r.states, csid))
    requires Remaining(csid, s, r.chunkSize) != []
    requires r.wire.rest == Remaining(csid, s, r.chunkSize)[0].octets + tail
    requires s.cursor < |s.payload| || s.todo != []
    requires SenderOk(Advance(s, r.chunkSize))
    ensures Remaining(csid, s, r.chunkSize)[0].csid == csid
    ensures Follows(r, ReadChunk(r), Remaining(csid, s, r.chunkSize)[0], Advance(s, r.chunkSize), tail)
  {
    hide ReadChunk, ContinuationChunk, HeadChunk, ChooseFormat;
    if s.cursor < |s.payload| {
      ContinuationRead(r, csid, s.out, s.payload, s.cursor, tail);
    } else {
      var m := s.todo[0];
      ChosenFormatFits(s.out, m);
      HeadChunkRead(r, ChooseFormat(s.out, m), csid, s.out, m, tail);
    }
  }

  /** Every sender is tracked by the reader, and `chunks` is some interleaving of what they have
      still to send. */
  ghost predicate Pending(r: Reader, senders: map<nat, Sender>, chunks: seq<Chunk>)
    requires r.chunkSize >= 1
  {
    && (forall c <- senders :: CsidInRange(c) && SenderOk(senders[c]) && Tracks(senders[c], Lookup(r.states, c)))
    && (forall c <- senders :: Only(chunks, c) == Remaining(c, senders[c], r.chunkSize))
    && (forall ch <- chunks :: ch.csid in senders)
  }

  lemma OnlyStep(chunks: seq<Chunk>, c: nat)
    requires chunks != []
    ensures Only(chunks, c) == if chunks[0].csid == c then [chunks[0]] + Only(chunks[1..], c) else Only(chunks[1..], c)
  {
  }

  lemma DeliveriesStep(r: Reader)
    requires ReaderOk(r)
    ensures match ReadChunk(r)
            case More(r1) => Deliveries(r) == Deliveries(r1)
            case Done(r1, csid, m) => Deliveries(r) == [(csid, m)] + Deliveries(r1)
            case Broken(_, _) => Deliveries(r) == []
  {
    hide ReadChunk;
  }

  lemma FirstPending(r: Reader, senders: map<nat, Sender>, chunks: seq<Chunk>)
    requires r.chunkSize >= 1 && chunks != [] && Pending(r, senders, chunks)
    ensures var c := chunks[0].csid;
            c in senders && Remaining(c, senders[c], r.chunkSize) == [chunks[0]] + Only(chunks[1..], c)
  {
    hide Remaining, Tracks, SenderOk, Only;
    assert chunks[0] in chunks;
    OnlyStep(chunks, chunks[0].csid);
  }

  /** When one stream moves on, the others stay where they were. */
  lemma PendingAfter(r: Reader, r1: Reader, senders: map<nat, Sender>, s1: Sender, chunks: seq<Chunk>)
    requires r.chunkSize == r1.chunkSize >= 1 && chunks != [] && Pending(r, senders, chunks)
    requires var c := chunks[0].csid;
             && c in r1.states && r1.states == r.states[c := r1.states[c]]
             && CsidInRange(c) && SenderOk(s1) && Tracks(s1, Some(r1.states[c]))
             && Remaining(c, s1, r.chunkSize) == Only(chunks[1..], c)
    ensures Pending(r1, senders[chunks[0].csid := s1], chunks[1..])
  {
    hide Remaining, Tracks, SenderOk, Only;
    var k, senders1 := chunks[0].csid, senders[chunks[0].csid := s1];
    forall c <- senders1
      ensures CsidInRange(c) && SenderOk(senders1[c]) && Tracks(senders1[c], Lookup(r1.states, c))
      ensures Only(chunks[1..], c) == Remaining(c, senders1[c], r1.chunkSize)
    {
      if c != k {
        OnlyStep(chunks, c);
        OtherUntouched(r.states, k, r1.states[k], c);
      }
    }
    assert forall x <- chunks[1..] :: x in chunks;
  }

  /** The first chunk: some sender's next one, which the reader understands. */
  lemma PendingStep(r: Reader, senders: map<nat, Sender>, chunks: seq<Chunk>) returns (senders1: map<nat, Sender>)
    requires ReaderOk(r) && r.wire.rest == Octets(chunks) && chunks != [] && Pending(r, senders, chunks)
    ensures var step, ch := ReadChunk(r), chunks[0];
            && (match ch.completes
                case Some(m) => step.Done? && step.csid == ch.csid && step.msg == m
                case None => step.More?)
            && step.r.wire.rest == Octets(chunks[1..])
            && Pending(step.r, senders1, chunks[1..])
  {
    FirstPending(r, senders, chunks);
    var c, n := chunks[0].csid, r.chunkSize;
    var s := senders[c];
    assert SenderOk(s) && Tracks(s, Lookup(r.states, c)) && n >= 1 && CsidInRange(c);
    hide ReadChunk, Remaining, Tracks, SenderOk, ReaderOk, Only, Advance, Lookup, Pending;
    RemainingStep(c, s, n);
    ChunkOfStream(r, c, s, Octets(chunks[1..]));
    DropFirst(chunks[0], Only(chunks[1..], c));
    PendingAfter(r, ReadChunk(r).r, senders, Advance(s, n), chunks);
    senders1 := senders[c := Advance(s, n)];
  }

  lemma DropFirst<T>(x: T, s: seq<T>)
    ensures ([x] + s)[1..] == s
  {
  }

  lemma OtherUntouched<T>(m: map<nat, T>, k: nat, v: T, c: nat)
    requires c != k
    ensures Lookup(m[k := v], c) == Lookup(m, c)
  {
  }

  /** Every chunk stream keeps its own memory, so chunks of any number of streams can be mixed at
      will: the reader delivers each message at its last chunk. */
  lemma {:induction false} InterleavingRead(r: Reader, senders: map<nat, Sender>, chunks: seq<Chunk>)
    requires ReaderOk(r) && r.wire.rest == Octets(chunks) && Pending(r, senders, chunks)
    ensures Deliveries(r) == Completed(chunks)
    decreases |chunks|
  {
    DeliveriesStep(r);
    if chunks != [] {
      hide Pending, Deliveries, ReaderOk, ReadChunk;
      var senders1 := PendingStep(r, senders, chunks);
      InterleavingRead(ReadChunk(r).r, senders1, chunks[1..]);
    }
  }

  function On(msgs: seq<(nat, Message)>, csid: nat): seq<Message> {
    if msgs == [] then []
    else (if msgs[0].0 == csid then [msgs[0].1] else []) + On(msgs[1..], csid)
  }

  lemma {:induction false} OnAppend(a: seq<(nat, Message)>, b: seq<(nat, Message)>, csid: nat)
    ensures On(a + b, csid) == On(a, csid) + On(b, csid)
  {
    if a == [] {
      assert a + b == b;
    } else {
      OnAppend(a[1..], b, csid);
      assert (a + b)[0] == a[0] && (a + b)[1..] == a[1..] + b;
      Assoc3(if a[0].0 == csid then [a[0].1] else [], On(a[1..], csid), On(b, csid));
    }
  }

  /** Looking at one stream and looking at what completes commute. */
  lemma {:induction false} CompletedOn(chunks: seq<Chunk>, csid: nat)
    ensures On(Completed(chunks), csid) == On(Completed(Only(chunks, csid)), csid)
  {
    if chunks != [] {
      CompletedOn(chunks[1..], csid);
      var rest := Only(chunks[1..], csid);
      var first := if chunks[0].completes.Some? then [(chunks[0].csid, chunks[0].completes.value)] else [];
      OnAppend(first, Completed(chunks[1..]), csid);
      if chunks[0].csid == csid {
        assert Only(chunks, csid)[1..] == rest;
        OnAppend(first, Completed(rest), csid);
      } else {
        assert Only(chunks, csid) == rest;
      }
    }
  }

  lemma {:induction false} CompletedAppend(a: seq<Chunk>, b: seq<Chunk>)
    ensures Completed(a + b) == Completed(a) + Completed(b)
  {
    if a == [] {
      assert a + b == b;
    } else {
      CompletedAppend(a[1..], b);
      assert (a + b)[0] == a[0] && (a + b)[1..] == a[1..] + b;
      Assoc3(if a[0].completes.Some? then [(a[0].csid, a[0].completes.value)] else [], Completed(a[1..]), Completed(b));
    }
  }

  lemma {:induction false} CompletedByContinuations(csid: nat, o: OutState, payload: seq<byte>, cursor: nat, n: nat)
    requires CsidInRange(csid) && n >= 1 && cursor < |payload|
    ensures Completed(ContinuationChunks(csid, o, payload, cursor, n))
         == [(csid, Message(o.typeId, o.streamId, o.timestamp, payload))]
    decreases |payload| - cursor
  {
    hide ContinuationChunk;
    if cursor + n < |payload| {
      CompletedByContinuations(csid, o, payload, cursor + n, n);
    }
    var all := ContinuationChunks(csid, o, payload, cursor, n);
    assert all[1..] == ContinuationChunks(csid, o, payload, cursor + n, n);
  }

  /** A stream of chunks completes exactly the messages it was made from. */
  lemma {:induction false} CompletedByStream(csid: nat, o: OutState, ms: seq<Message>, n: nat)
    requires CsidInRange(csid) && n >= 1
    ensures On(Completed(StreamChunks(csid, o, ms, n)), csid) == ms
    decreases |ms|
  {
    hide HeadChunk, ChooseFormat;
    if ms != [] {
      var m := ms[0];
      var o1 := Commit(ChooseFormat(o, m), o, m);
      var first, more := [FirstChunk(csid, o, m, n)], ContinuationChunks(csid, o1, m.payload, n, n);
      var others := StreamChunks(csid, o1, ms[1..], n);
      if n < |m.payload| {
        CompletedByContinuations(csid, o1, m.payload, n, n);
        assert Completed(first) == [];
      } else {
        assert Completed(first) == [(csid, m)];
        assert more == [];
      }
      CompletedAppend(first, more);
      CompletedAppend(first + more, others);
      OnAppend([(csid, m)], Completed(others), csid);
      CompletedByStream(csid, o1, ms[1..], n);
      assert On([(csid, m)], csid) == [m];
    }
  }

  /** For any interleaving, chunk by chunk, of streams written independently on distinct chunk
      streams, each stream delivers exactly its messages, in order, and messages of different
      streams are delivered in the order of their last chunks. */
  lemma IndependentStreams(streams: map<nat, seq<Message>>, chunks: seq<Chunk>, n: nat)
    requires 1 <= n <= MAX_CHUNK_SIZE
    requires forall c <- streams :: CsidInRange(c) && forall m <- streams[c] :: |m.payload| < 0x100_0000
    requires forall c <- streams :: Only(chunks, c) == StreamChunks(c, FRESH_OUT, streams[c], n)
    requires forall ch <- chunks :: ch.csid in streams
    ensures var got := Deliveries(Reader(n, map[], Wire(Octets(chunks), 0)));
            got == Completed(chunks) && forall c <- streams :: On(got, c) == streams[c]
  {
    hide StreamChunks, Deliveries, Completed, Only;
    var r := Reader(n, map[], Wire(Octets(chunks), 0));
    var senders := map c | c in streams :: Sender(FRESH_OUT, [], 0, streams[c]);
    forall c <- senders
      ensures Only(chunks, c) == Remaining(c, senders[c], n)
    {
      assert ContinuationChunks(c, FRESH_OUT, [], 0, n) == [];
    }
    InterleavingRead(r, senders, chunks);
    forall c <- streams
      ensures On(Completed(chunks), c) == streams[c]
    {
      CompletedOn(chunks, c);
      CompletedByStream(c, FRESH_OUT, streams[c], n);
    }
  }

  // ------------------------------- the chunks are those the writer puts on the wire

  lemma {:induction false} OctetsAppend(a: seq<Chunk>, b: seq<Chunk>)
    ensures Octets(a + b) == Octets(a) + Octets(b)
  {
    if a == [] {
      assert a + b == b;
    } else {
      OctetsAppend(a[1..], b);
      assert (a + b)[0] == a[0] && (a + b)[1..] == a[1..] + b;
      Assoc3(a[0].octets, Octets(a[1..]), Octets(b));
    }
  }

  lemma {:induction false} ContinuationOctets(csid: nat, o: OutState, payload: seq<byte>, cursor: nat, n: nat)
    requires CsidInRange(csid) && n >= 1
    ensures Octets(ContinuationChunks(csid, o, payload, cursor, n)) == Continuations(csid, o, payload, cursor, n)
    decreases |payload| - cursor
  {
    hide ContinuationChunk;
    if cursor < |payload| {
      ContinuationOctets(csid, o, payload, cursor + n, n);
      var all := ContinuationChunks(csid, o, payload, cursor, n);
      assert all[1..] == ContinuationChunks(csid, o, payload, cursor + n, n);
    }
  }

  lemma MessageOctets(csid: nat, o: OutState, m: Message, n: nat)
    requires CsidInRange(csid) && n >= 1
    ensures var fmt := ChooseFormat(o, m);
            Octets([FirstChunk(csid, o, m, n)] + ContinuationChunks(csid, Commit(fmt, o, m), m.payload, n, n))
            == Encoding(fmt, csid, o, m, n)
  {
    hide HeadChunk, ChooseFormat, Commit, Continuations, ContinuationChunks;
    var first, o1 := [FirstChunk(csid, o, m, n)], Commit(ChooseFormat(o, m), o, m);
    OctetsAppend(first, ContinuationChunks(csid, o1, m.payload, n, n));
    ContinuationOctets(csid, o1, m.payload, n, n);
    assert Octets(first) == first[0].octets;
  }

  /** The chunks of a stream, end to end, are the octets a writer emits for its messages. */
  lemma {:induction false} StreamOctets(w: Writer, csid: nat, ms: seq<Message>)
    requires WriterOk(w) && CsidInRange(csid)
    ensures Octets(StreamChunks(csid, OutOf(w.states, csid), ms, w.chunkSize))
         == Transmitted(w, seq(|ms|, i requires 0 <= i < |ms| => Send(csid, ms[i])))
    decreases |ms|
  {
    hide HeadChunk, ChooseFormat, Commit, Continuations, ContinuationChunks, FirstChunk, Encoding;
    var ops := seq(|ms|, i requires 0 <= i < |ms| => Send(csid, ms[i]));
    if ms != [] {
      var m, n := ms[0], w.chunkSize;
      var o := OutOf(w.states, csid);
      var o1 := Commit(ChooseFormat(o, m), o, m);
      OctetsAppend([FirstChunk(csid, o, m, n)] + ContinuationChunks(csid, o1, m.payload, n, n),
                   StreamChunks(csid, o1, ms[1..], n));
      MessageOctets(csid, o, m, n);
      StreamOctets(AfterOp(w, ops[0]), csid, ms[1..]);
      assert ops[1..] == seq(|ms| - 1, i requires 0 <= i < |ms| - 1 => Send(csid, ms[1..][i]));
    }
  }
}
