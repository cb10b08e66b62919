/** The writer's choice of header format: which formats a reader in step would understand at all,
    and exactly when the chosen one costs the fewest octets among them. */
module ChunkDensity {
  import opened Bytes
  import opened ChunkModel
  import opened ChunkSync
  import opened ChunkRuns

  /** What a reader in step makes of a header of format `fmt`, fitting or not. */
  function Heard(fmt: nat, o: OutState, m: Message): InState
    requires fmt < 4 && o.length < 0x100_0000 && |m.payload| < 0x100_0000
  {
    var v := TimeField(fmt, o, m);
    InState(
      if fmt <= 1 then m.typeId else o.typeId,
      if fmt == 0 then m.streamId else o.streamId,
      if fmt <= 1 then |m.payload| else o.length,
      if fmt == 3 then WrapAdd(o.timestamp, v) else m.timestamp,
      v, Extends(fmt, o, m), [])
  }

  lemma HeaderHeard(fmt: nat, o: OutState, m: Message, tail: seq<byte>, c: nat)
    requires fmt < 4 && o.primed && o.length < 0x100_0000 && |m.payload| < 0x100_0000
    ensures var h := MessageHeader(fmt, o, m);
            ReadMessageHeader(fmt, Some(Mirror(o)), Wire(h + tail, c)) == Ok(Heard(fmt, o, m), Wire(tail, c + |h|))
  {
    hide BE, UnBE, LE, UnLE, ReadExact, ReadFmt0;
    if fmt == 0 {
      Fmt0Read(o, m, tail, c);
    } else if fmt == 1 {
      var m1 := m.(streamId := o.streamId);
      assert MessageHeader(1, o, m1) == MessageHeader(1, o, m);
      Fmt1Read(o, m1, Some(Mirror(o)), tail, c);
    } else if fmt == 2 {
      var v := WrapSub(m.timestamp, o.timestamp);
      WrapInverse(m.timestamp, o.timestamp);
      var ext := v >= EXTENDED;
      var field := if ext then EXTENDED else v;
      Widths();
      Assoc3(BE(3, field), ExtField(ext, v), tail);
      ReadBEPrefix(3, field, ExtField(ext, v) + tail, c);
      ExtFieldRead(v, tail, c + 3);
    } else {
      Fmt3Read(Mirror(o), o.lastDelta, tail, c);
    }
  }

  /** The octets that follow the header of a chunk: its share of the payload and all later chunks. */
  function FromBody(csid: nat, o: OutState, payload: seq<byte>, cursor: nat, n: nat): seq<byte>
    requires CsidInRange(csid) && n >= 1 && cursor <= |payload|
  {
    payload[cursor..Min(cursor + n, |payload|)] + Continuations(csid, o, payload, cursor + n, n)
  }

  /** The reader once it holds `upTo` octets of the payload and is about to read the next chunk. */
  function Holding(r: Reader, csid: nat, st: InState, o: OutState, payload: seq<byte>, upTo: nat, c: nat): Reader
    requires ReaderOk(r) && CsidInRange(csid) && upTo <= |payload|
  {
    Reader(r.chunkSize, r.states[csid := st.(partial := payload[..upTo])],
           Wire(Continuations(csid, o, payload, upTo, r.chunkSize), c))
  }

  /** As long as neither length is reached, the reader takes a full chunk. */
  lemma BodyAdvances(r: Reader, csid: nat, st: InState, o: OutState, payload: seq<byte>, cursor: nat, c: nat)
    requires ReaderOk(r) && CsidInRange(csid)
    requires cursor + r.chunkSize < Min(|payload|, st.length) && st.partial == payload[..cursor]
    ensures ReadBody(r, csid, st, Wire(FromBody(csid, o, payload, cursor, r.chunkSize), c))
         == More(Holding(r, csid, st, o, payload, cursor + r.chunkSize, c + r.chunkSize))
  {
    hide Continuations;
    var n := r.chunkSize;
    ReadExactPrefix(payload[cursor..cursor + n], Continuations(csid, o, payload, cursor + n, n), c);
    assert payload[..cursor] + payload[cursor..cursor + n] == payload[..cursor + n];
  }

  /** The next chunk then is where the reader expects it. */
  lemma NextChunk(r: Reader, csid: nat, st: InState, o: OutState, payload: seq<byte>, upTo: nat, c: nat)
    requires ReaderOk(r) && CsidInRange(csid)
    requires 0 < upTo < Min(|payload|, st.length) && o.hadExt == st.hadExt
    ensures var r1 := Holding(r, csid, st, o, payload, upTo, c);
            && ReaderOk(r1)
            && ReadChunk(r1)
               == ReadBody(r1, csid, st.(partial := payload[..upTo]),
                           Wire(FromBody(csid, o, payload, upTo, r.chunkSize),
                                c + |BasicHeader(3, csid)| + |ExtField(o.hadExt, o.lastDelta)|))
  {
    hide ReadMessageHeader, BasicHeader, ReadChunk, ReadBody, ExtField, Continuations;
    var r1, body := Holding(r, csid, st, o, payload, upTo, c), FromBody(csid, o, payload, upTo, r.chunkSize);
    var st1 := st.(partial := payload[..upTo]);
    ContinuationSplit(csid, o, payload, upTo, r.chunkSize);
    Fmt3Heard(st1, o.lastDelta, body, c + |BasicHeader(3, csid)|);
    ChunkRead(r1, csid, 3, ExtField(o.hadExt, o.lastDelta), st1, body);
  }

  /** A step that neither returns `payload` nor leads to returning it. */
  ghost predicate Misses(s: Step, payload: seq<byte>)
    requires ReaderOk(s.r)
  {
    if s.More? then
      var s1 := ReadMessage(s.r);
      !(s1.Done? && s1.msg.payload == payload)
    else
      !(s.Done? && s.msg.payload == payload)
  }

  /** When one length is reached first, the message returned is too short or the stream ends. */
  lemma BodyEnds(r: Reader, csid: nat, st: InState, o: OutState, payload: seq<byte>, cursor: nat, c: nat)
    requires ReaderOk(r) && CsidInRange(csid) && StateOk(st) && cursor <= |payload| != st.length
    requires cursor == 0 || cursor < Min(|payload|, st.length)
    requires cursor + r.chunkSize >= Min(|payload|, st.length)
    requires st.partial == payload[..cursor]
    ensures Misses(ReadBody(r, csid, st, Wire(FromBody(csid, o, payload, cursor, r.chunkSize), c)), payload)
  {
    hide ReadMessageHeader, ReadBasicHeader, ContinuationChunk;
    var n := r.chunkSize;
    if cursor + n >= |payload| {
      assert FromBody(csid, o, payload, cursor, n) == payload[cursor..];
      assert payload[..cursor] + payload[cursor..] == payload;
    }
    if cursor + n == |payload| {
      assert forall r1: Reader :: ReaderOk(r1) && r1.wire.rest == [] ==> ReadMessage(r1).Broken?;
    }
  }

  /** A reader that expects another length than was sent never comes to return the payload sent. */
  lemma {:induction false} MismatchedBody(
    r: Reader, csid: nat, st: InState, o: OutState, payload: seq<byte>, cursor: nat, c: nat)
    requires ReaderOk(r) && CsidInRange(csid) && StateOk(st) && cursor <= |payload| != st.length
    requires cursor == 0 || cursor < Min(|payload|, st.length)
    requires o.hadExt == st.hadExt && st.partial == payload[..cursor]
    ensures Misses(ReadBody(r, csid, st, Wire(FromBody(csid, o, payload, cursor, r.chunkSize), c)), payload)
    decreases |payload| - cursor
  {
    hide ReadBody, ReadChunk, Continuations, ContinuationChunk, BasicHeader, ExtField, FromBody;
    var n := r.chunkSize;
    if cursor + n < Min(|payload|, st.length) {
      BodyAdvances(r, csid, st, o, payload, cursor, c);
      NextChunk(r, csid, st, o, payload, cursor + n, c + n);
      MismatchedBody(Holding(r, csid, st, o, payload, cursor + n, c + n), csid, st.(partial := payload[..cursor + n]),
                     o, payload, cursor + n,
                     c + n + |BasicHeader(3, csid)| + |ExtField(o.hadExt, o.lastDelta)|);
    } else {
      BodyEnds(r, csid, st, o, payload, cursor, c);
    }
  }

  lemma ContinuationSplit(csid: nat, o: OutState, payload: seq<byte>, cursor: nat, n: nat)
    requires CsidInRange(csid) && n >= 1 && cursor < |payload|
    ensures Continuations(csid, o, payload, cursor, n)
         == BasicHeader(3, csid) + (ExtField(o.hadExt, o.lastDelta)
            + (payload[cursor..Min(cursor + n, |payload|)] + Continuations(csid, o, payload, cursor + n, n)))
  {
    hide BasicHeader, ExtField;
    Assoc4(BasicHeader(3, csid), ExtField(o.hadExt, o.lastDelta), payload[cursor..Min(cursor + n, |payload|)],
           Continuations(csid, o, payload, cursor + n, n));
  }

  lemma Fmt3Heard(st: InState, v: u32, tail: seq<byte>, c: nat)
    requires st.partial != []
    ensures ReadMessageHeader(3, Some(st), Wire(ExtField(st.hadExt, v) + tail, c))
         == Ok(st, Wire(tail, c + |ExtField(st.hadExt, v)|))
  {
    Fmt3Read(st, v, tail, c);
  }

  lemma {:induction false} SameContinuations(csid: nat, o: OutState, o1: OutState, payload: seq<byte>, cursor: nat, n: nat)
    requires CsidInRange(csid) && n >= 1 && o.hadExt == o1.hadExt && o.lastDelta == o1.lastDelta
    ensures Continuations(csid, o, payload, cursor, n) == Continuations(csid, o1, payload, cursor, n)
    decreases |payload| - cursor
  {
    if cursor < |payload| {
      SameContinuations(csid, o, o1, payload, cursor + n, n);
    }
  }

  /** The message whose encoding in format `fmt` is the very same octets, and which fits. */
  lemma FittingTwin(fmt: nat, csid: nat, o: OutState, m: Message, n: nat) returns (m1: Message)
    requires fmt < 4 && CsidInRange(csid) && n >= 1 && o.primed && o.length < 0x100_0000
    requires |m.payload| < 0x100_0000 && Heard(fmt, o, m).length == |m.payload|
    ensures Fits(fmt, o, m1) && m1.payload == m.payload
    ensures m1 == m <==> Fits(fmt, o, m)
    ensures Encoding(fmt, csid, o, m1, n) == Encoding(fmt, csid, o, m, n)
  {
    hide BE, LE, BasicHeader;
    var st := Heard(fmt, o, m);
    m1 := Message(st.typeId, st.streamId, st.timestamp, m.payload);
    WrapInverse(m.timestamp, o.timestamp);
    SameContinuations(csid, Commit(fmt, o, m), Commit(fmt, o, m1), m.payload, n, n);
  }

  /** Of the four formats, a reader in step recovers the message exactly from those that fit. */
  lemma DecodesIffFits(r: Reader, fmt: nat, csid: nat, o: OutState, m: Message)
    requires ReaderOk(r) && CsidInRange(csid) && fmt < 4
    requires o.primed && Synced(o, Lookup(r.states, csid)) && |m.payload| < 0x100_0000
    requires r.wire.rest == Encoding(fmt, csid, o, m, r.chunkSize)
    ensures var s := ReadMessage(r);
            (s.Done? && s.msg == m) <==> Fits(fmt, o, m)
  {
    hide ReadChunk, ReadBody, Encoding, Fits, FromBody;
    var n := r.chunkSize;
    if Heard(fmt, o, m).length == |m.payload| {
      var m1 := FittingTwin(fmt, csid, o, m, n);
      assert r.wire.rest + [] == r.wire.rest;
      MessageRead(r, fmt, csid, o, m1, []);
    } else {
      HeadHeard(r, fmt, csid, o, m);
      MismatchedBody(r, csid, Heard(fmt, o, m), Commit(fmt, o, m), m.payload, 0,
                     r.wire.received + |BasicHeader(fmt, csid)| + |MessageHeader(fmt, o, m)|);
      UnfitLength(fmt, o, m);
    }
  }

  lemma UnfitLength(fmt: nat, o: OutState, m: Message)
    requires fmt < 4 && o.length < 0x100_0000 && |m.payload| < 0x100_0000
    requires Heard(fmt, o, m).length != |m.payload|
    ensures !Fits(fmt, o, m)
  {
  }

  lemma HeadHeard(r: Reader, fmt: nat, csid: nat, o: OutState, m: Message)
    requires ReaderOk(r) && CsidInRange(csid) && fmt < 4
    requires o.primed && Synced(o, Lookup(r.states, csid)) && |m.payload| < 0x100_0000
    requires r.wire.rest == Encoding(fmt, csid, o, m, r.chunkSize)
    ensures ReadChunk(r)
         == ReadBody(r, csid, Heard(fmt, o, m),
                     Wire(FromBody(csid, Commit(fmt, o, m), m.payload, 0, r.chunkSize),
                          r.wire.received + |BasicHeader(fmt, csid)| + |MessageHeader(fmt, o, m)|))
  {
    hide ReadChunk, ReadBody, ReadMessageHeader, MessageHeader, BasicHeader, Continuations, Commit, Heard;
    var n, o1 := r.chunkSize, Commit(fmt, o, m);
    var body := FromBody(csid, o1, m.payload, 0, n);
    Assoc4(BasicHeader(fmt, csid), MessageHeader(fmt, o, m), m.payload[..Min(n, |m.payload|)],
           Continuations(csid, o1, m.payload, n, n));
    HeaderHeard(fmt, o, m, body, r.wire.received + |BasicHeader(fmt, csid)|);
    ChunkRead(r, csid, fmt, MessageHeader(fmt, o, m), Heard(fmt, o, m), body);
  }

  // ------------------------------------------------------------------ cost

  /** The sticky bit is a function of the delta it goes with. */
  predicate ExtBitOk(o: OutState) {
    o.primed ==> (o.hadExt <==> o.lastDelta >= EXTENDED)
  }

  /** Every chunk stream in use has been primed, and its bit is right. */
  ghost predicate ExtBitsOk(w: Writer) {
    forall c <- w.states :: w.states[c].primed && ExtBitOk(w.states[c])
  }

  lemma {:induction false} ExtBitInvariant(w: Writer, ops: seq<Op>)
    requires WriterOk(w) && ExtBitsOk(w)
    ensures ExtBitsOk(AfterOps(w, ops))
    decreases |ops|
  {
    if ops != [] {
      ExtBitInvariant(AfterOp(w, ops[0]), ops[1..]);
    }
  }

  /** How many chunks the payload behind `cursor` takes. */
  function ChunkCount(length: nat, cursor: nat, n: nat): (k: nat)
    requires n >= 1
    ensures k == 0 <==> length <= cursor
    ensures k <= 1 <==> length <= cursor + n
    decreases length - cursor
  {
    if cursor >= length then 0 else 1 + ChunkCount(length, cursor + n, n)
  }

  /** The 32-bit field adds four octets to every continuation chunk. */
  lemma {:induction false} ContinuationsLength(csid: nat, o: OutState, payload: seq<byte>, cursor: nat, n: nat)
    requires CsidInRange(csid) && n >= 1
    ensures |Continuations(csid, o, payload, cursor, n)|
         == |Continuations(csid, FRESH_OUT, payload, cursor, n)| + (if o.hadExt then 4 * ChunkCount(|payload|, cursor, n) else 0)
    decreases |payload| - cursor
  {
    hide BE, BasicHeader;
    if cursor < |payload| {
      ContinuationsLength(csid, o, payload, cursor + n, n);
    }
  }

  /** What a header of each format takes, without the 32-bit field. */
  function HeaderSize(fmt: nat): nat {
    if fmt == 0 then 11 else if fmt == 1 then 7 else if fmt == 2 then 3 else 0
  }

  /** What every format has to spend on a message. */
  function Common(csid: nat, m: Message, n: nat): nat
    requires CsidInRange(csid) && n >= 1
  {
    |BasicHeader(3, csid)| + Min(n, |m.payload|) + |Continuations(csid, FRESH_OUT, m.payload, n, n)|
  }

  /** The length of an encoding, in closed form. */
  function Cost(fmt: nat, o: OutState, m: Message, n: nat): nat
    requires n >= 1
  {
    HeaderSize(fmt) + (if Extends(fmt, o, m) then 4 + 4 * ChunkCount(|m.payload|, n, n) else 0)
  }

  lemma EncodingLength(fmt: nat, csid: nat, o: OutState, m: Message, n: nat)
    requires fmt < 4 && CsidInRange(csid) && n >= 1
    ensures |Encoding(fmt, csid, o, m, n)| == Common(csid, m, n) + Cost(fmt, o, m, n)
  {
    hide BE, LE, Continuations, ChunkCount;
    ContinuationsLength(csid, Commit(fmt, o, m), m.payload, n, n);
    assert |BasicHeader(fmt, csid)| == |BasicHeader(3, csid)|;
    assert |MessageHeader(fmt, o, m)| == HeaderSize(fmt) + (if Extends(fmt, o, m) then 4 else 0);
  }

  /** Where time goes back on the message stream the writer starts afresh with a full header. That is
      the densest form when the step, taken as a delta, needs the 32-bit field and the new time does
      not, and the message is not so like the one before and so short that a delta would still pay. */
  predicate Dense(o: OutState, m: Message, n: nat) {
    o.primed && o.streamId == m.streamId && m.timestamp < o.timestamp ==>
      var d := WrapSub(m.timestamp, o.timestamp);
      && d >= EXTENDED > m.timestamp
      && !(o.typeId == m.typeId && o.length == PayloadLength(m)
           && (|m.payload| <= n || (d == o.lastDelta && |m.payload| <= 2 * n)))
  }

  /** The chosen format costs no more than any other that fits. */
  ghost predicate Cheapest(o: OutState, m: Message, n: nat)
    requires n >= 1
  {
    forall fmt | Fits(fmt, o, m) :: Cost(ChooseFormat(o, m), o, m, n) <= Cost(fmt, o, m, n)
  }

  lemma CheapestIff(o: OutState, m: Message, n: nat)
    requires n >= 1 && ExtBitOk(o)
    ensures Cheapest(o, m, n) <==> Dense(o, m, n)
  {
    hide ChunkCount;
    var k := ChunkCount(|m.payload|, n, n);
    assert k >= 0 && (k == 0 <==> |m.payload| <= n) && (k <= 1 <==> |m.payload| <= n + n);
    if o.primed && o.streamId == m.streamId && m.timestamp < o.timestamp {
      assert ChooseFormat(o, m) == 0 && Fits(1, o, m);
      if Cheapest(o, m, n) {
        assert Cost(0, o, m, n) <= Cost(1, o, m, n);
        if o.typeId == m.typeId && o.length == PayloadLength(m) {
          assert Fits(2, o, m) && Cost(0, o, m, n) <= Cost(2, o, m, n);
          assert Fits(3, o, m) ==> Cost(0, o, m, n) <= Cost(3, o, m, n);
        }
      }
    }
  }

  /** The writer's format is the shortest of those that fit exactly under that condition. */
  lemma ChosenIsShortestIff(csid: nat, o: OutState, m: Message, n: nat)
    requires CsidInRange(csid) && n >= 1 && ExtBitOk(o)
    ensures (forall fmt | Fits(fmt, o, m) :: |Encoding(ChooseFormat(o, m), csid, o, m, n)| <= |Encoding(fmt, csid, o, m, n)|)
       <==> Dense(o, m, n)
  {
    hide Encoding, Cost, ChooseFormat, Fits, Dense;
    CheapestIff(o, m, n);
    EncodingLength(ChooseFormat(o, m), csid, o, m, n);
    forall fmt | fmt < 4
      ensures |Encoding(fmt, csid, o, m, n)| == Common(csid, m, n) + Cost(fmt, o, m, n)
    {
      EncodingLength(fmt, csid, o, m, n);
    }
    FitsIsFormat(o, m);
    if Cheapest(o, m, n) {
      forall fmt | Fits(fmt, o, m)
        ensures |Encoding(ChooseFormat(o, m), csid, o, m, n)| <= |Encoding(fmt, csid, o, m, n)|
      {
        assert Cost(ChooseFormat(o, m), o, m, n) <= Cost(fmt, o, m, n);
      }
    }
  }

  /** In particular whenever time has not gone back on the message stream. */
  lemma ChosenIsShortest(fmt: nat, csid: nat, o: OutState, m: Message, n: nat)
    requires CsidInRange(csid) && n >= 1 && ExtBitOk(o)
    requires o.primed && o.streamId == m.streamId ==> o.timestamp <= m.timestamp
    requires Fits(fmt, o, m)
    ensures |Encoding(ChooseFormat(o, m), csid, o, m, n)| <= |Encoding(fmt, csid, o, m, n)|
  {
    hide Encoding, ChooseFormat, Fits;
    ChosenIsShortestIff(csid, o, m, n);
    FitsIsFormat(o, m);
  }

  lemma FitsIsFormat(o: OutState, m: Message)
    ensures forall fmt | Fits(fmt, o, m) :: fmt < 4
  {
  }

  /** A reader recovers the message from its encoding in format `fmt`. */
  ghost predicate Recovers(r: Reader, fmt: nat, csid: nat, o: OutState, m: Message)
    requires ReaderOk(r) && CsidInRange(csid) && fmt < 4
  {
    var s := ReadMessage(Facing(r, Encoding(fmt, csid, o, m, r.chunkSize)));
    s.Done? && s.msg == m
  }

  /** The reader with other octets to come. */
  function Facing(r: Reader, octets: seq<byte>): (r1: Reader)
    requires ReaderOk(r)
    ensures ReaderOk(r1)
  {
    r.(wire := Wire(octets, r.wire.received))
  }

  /** A reader that knows nothing of a chunk stream understands full headers only. */
  lemma UnknownRefused(r: Reader, fmt: nat, csid: nat, o: OutState, m: Message)
    requires ReaderOk(r) && CsidInRange(csid) && 0 < fmt < 4 && csid !in r.states
    ensures !Recovers(r, fmt, csid, o, m)
  {
    hide BasicHeader, MessageHeader, Continuations, ReadBody, ReadFmt0;
    var n := r.chunkSize;
    var octets := Encoding(fmt, csid, o, m, n);
    var tail := MessageHeader(fmt, o, m) + m.payload[..Min(n, |m.payload|)] + Continuations(csid, Commit(fmt, o, m), m.payload, n, n);
    assert octets == BasicHeader(fmt, csid) + tail;
    BasicHeaderRead(fmt, csid, tail, r.wire.received);
  }

  lemma RecoversIffFits(r: Reader, fmt: nat, csid: nat, o: OutState, m: Message)
    requires ReaderOk(r) && CsidInRange(csid) && fmt < 4 && |m.payload| < 0x100_0000
    requires if o.primed then Synced(o, Lookup(r.states, csid)) else csid !in r.states && fmt > 0
    ensures Recovers(r, fmt, csid, o, m) <==> Fits(fmt, o, m)
  {
    hide Encoding, ReadMessage;
    if o.primed {
      DecodesIffFits(Facing(r, Encoding(fmt, csid, o, m, r.chunkSize)), fmt, csid, o, m);
    } else {
      UnknownRefused(r, fmt, csid, o, m);
    }
  }

  /** After any session, on a chunk stream in use or one that neither end has used: no format from
      which the reader would recover the next message is shorter than the one written, exactly unless
      time goes back and a delta would still be shorter. */
  lemma DensestFormat(ops: seq<Op>, r: Reader, csid: nat, m: Message)
    requires CsidInRange(csid) && |m.payload| < 0x100_0000 && ReaderOk(r)
    requires InStep(AfterOps(NEW_WRITER, ops), r)
    requires csid in AfterOps(NEW_WRITER, ops).states || csid !in r.states
    ensures var w := AfterOps(NEW_WRITER, ops);
            var o := OutOf(w.states, csid);
            (forall fmt | 0 <= fmt < 4 && Recovers(r, fmt, csid, o, m) ::
               |Written(w, csid, m)| <= |Encoding(fmt, csid, o, m, r.chunkSize)|)
            <==> Dense(o, m, r.chunkSize)
  {
    hide Encoding, Recovers, AfterOps, Fits, ChooseFormat, Dense;
    var w := AfterOps(NEW_WRITER, ops);
    var o := OutOf(w.states, csid);
    ExtBitInvariant(NEW_WRITER, ops);
    ChosenIsShortestIff(csid, o, m, r.chunkSize);
    FitsIsFormat(o, m);
    if o.primed {
      forall fmt | 0 <= fmt < 4
        ensures Recovers(r, fmt, csid, o, m) <==> Fits(fmt, o, m)
      {
        RecoversIffFits(r, fmt, csid, o, m);
      }
    } else {
      FirstIsFull(o, m, r.chunkSize);
      forall fmt | 0 < fmt < 4
        ensures !Recovers(r, fmt, csid, o, m)
      {
        UnknownRefused(r, fmt, csid, o, m);
      }
    }
  }

  lemma FirstIsFull(o: OutState, m: Message, n: nat)
    requires !o.primed
    ensures ChooseFormat(o, m) == 0 && Dense(o, m, n)
  {
  }

  /** Two messages at the last millisecond before the clock rolls over. */
  const AT_THE_END := Message(8, 1, 0xFFFF_FFFF, [])
  const ROLLOVER: seq<Op> := [Send(4, AT_THE_END), Send(4, AT_THE_END)]

  /** When the clock then rolls over, the writer starts afresh although a delta of six would do. */
  lemma RolloverIsLonger()
    ensures var o := OutOf(AfterOps(NEW_WRITER, ROLLOVER).states, 4);
            var m := Message(8, 1, 5, []);
            && ChooseFormat(o, m) == 0 && Fits(2, o, m) && !Dense(o, m, DEFAULT_CHUNK_SIZE)
            && |Encoding(0, 4, o, m, DEFAULT_CHUNK_SIZE)| == |Encoding(2, 4, o, m, DEFAULT_CHUNK_SIZE)| + 8
  {
    hide BE, LE;
    var w1 := AfterOp(NEW_WRITER, ROLLOVER[0]);
    var w2 := AfterOp(w1, ROLLOVER[1]);
    var last := ROLLOVER[1..];
    assert last[0] == ROLLOVER[1] && last[1..] == [];
    assert AfterOps(w2, []) == w2;
    assert AfterOps(w1, last) == AfterOps(AfterOp(w1, last[0]), last[1..]);
    assert AfterOps(NEW_WRITER, ROLLOVER) == AfterOps(AfterOp(NEW_WRITER, ROLLOVER[0]), ROLLOVER[1..]);
    var o := OutState(8, 1, 0, 0xFFFF_FFFF, 0, false, true);
    var m := Message(8, 1, 5, []);
    assert w2.states[4] == o;
    assert WrapSub(m.timestamp, o.timestamp) == 6;
    EncodingLength(0, 4, o, m, DEFAULT_CHUNK_SIZE);
    EncodingLength(2, 4, o, m, DEFAULT_CHUNK_SIZE);
  }

  /** A small step back behind a long message is another matter: there the full header is the
      densest. */
  lemma StepBackIsDense(payload: seq<byte>)
    requires |payload| == 300
    ensures var o := OutState(8, 1, 300, 10, 5, false, true);
            var m := Message(8, 1, 5, payload);
            m.timestamp < o.timestamp && forall fmt | Fits(fmt, o, m) :: |Encoding(0, 4, o, m, 128)| <= |Encoding(fmt, 4, o, m, 128)|
  {
    hide Encoding;
    var o := OutState(8, 1, 300, 10, 5, false, true);
    var m := Message(8, 1, 5, payload);
    assert ChooseFormat(o, m) == 0 && Dense(o, m, 128);
    hide ChooseFormat, Fits, Dense;
    ChosenIsShortestIff(4, o, m, 128);
    FitsIsFormat(o, m);
  }
}
