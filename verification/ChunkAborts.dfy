/** Aborts in the midst of interleaved streams: an abort takes the unfinished message of its own chunk
    stream and nothing else. */
module ChunkAborts {
  import opened Bytes
  import opened ChunkModel
  import opened ChunkSync
  import opened ChunkRuns

  /** Aborting touches the partial payload of one chunk stream: not its header fields, not the memory
      of any other, not the chunk size, not the octets to come. */
  lemma AbortTouchesOne(r: Reader, csid: nat)
    ensures var r1 := AfterAbort(r, csid);
            && r1.chunkSize == r.chunkSize && r1.wire == r.wire && r1.states.Keys == r.states.Keys
            && (forall c <- r.states | c != csid :: r1.states[c] == r.states[c])
            && (csid in r.states ==>
                  var (a, b) := (r.states[csid], r1.states[csid]);
                  && b.partial == [] && b.typeId == a.typeId && b.streamId == a.streamId && b.length == a.length
                  && b.timestamp == a.timestamp && b.lastDelta == a.lastDelta && b.hadExt == a.hadExt)
  {
  }

  /** What happens at the receiving end: a chunk arrives, or the message on a chunk stream is aborted. */
  datatype Event = Arrives(chunk: Chunk) | Aborts(csid: nat)

  function EventCsid(e: Event): nat {
    match e
    case Arrives(ch) => ch.csid
    case Aborts(c) => c
  }

  function EventOctets(events: seq<Event>): seq<byte> {
    if events == [] then []
    else (if events[0].Arrives? then events[0].chunk.octets else []) + EventOctets(events[1..])
  }

  function OnlyOf(events: seq<Event>, csid: nat): seq<Event> {
    if events == [] then []
    else (if EventCsid(events[0]) == csid then [events[0]] else []) + OnlyOf(events[1..], csid)
  }

  /** The messages whose last chunk arrives. */
  function CompletedIn(events: seq<Event>): seq<(nat, Message)> {
    if events == [] then [] else Completes(events[0]) + CompletedIn(events[1..])
  }

  function Completes(e: Event): seq<(nat, Message)> {
    if e.Arrives? && e.chunk.completes.Some? then [(e.chunk.csid, e.chunk.completes.value)] else []
  }

  /** Everything the reader delivers, chunk by chunk. */
  function EventDeliveries(r: Reader, events: seq<Event>): seq<(nat, Message)>
    requires ReaderOk(r)
    decreases |events|
  {
    if events == [] then []
    else
      match events[0]
      case Aborts(c) => EventDeliveries(AfterAbort(r, c), events[1..])
      case Arrives(_) =>
        match ReadChunk(r)
        case Broken(_, _) => []
        case More(r1) => EventDeliveries(r1, events[1..])
        case Done(r1, c, m) => [(c, m)] + EventDeliveries(r1, events[1..])
  }

  /** A sender whose message is aborted goes on with the next one. */
  function Dropped(s: Sender): Sender {
    Sender(s.out, [], 0, s.todo)
  }

  /** What a sender may do: send its next chunk, or see its message aborted, or stop. */
  ghost predicate Behaves(csid: nat, s: Sender, events: seq<Event>, n: nat)
    requires CsidInRange(csid) && n >= 1
    decreases |events|
  {
    events == [] ||
    match events[0]
    case Aborts(_) => Behaves(csid, Dropped(s), events[1..], n)
    case Arrives(ch) =>
      && Remaining(csid, s, n) != [] && ch == Remaining(csid, s, n)[0]
      && (s.cursor < |s.payload| || s.todo != [])
      && Behaves(csid, Advance(s, n), events[1..], n)
  }

  ghost predicate SenderPending(r: Reader, c: nat, s: Sender, events: seq<Event>)
    requires r.chunkSize >= 1
  {
    CsidInRange(c) && SenderOk(s) && Tracks(s, Lookup(r.states, c)) && Behaves(c, s, OnlyOf(events, c), r.chunkSize)
  }

  ghost predicate EventsPending(r: Reader, senders: map<nat, Sender>, events: seq<Event>)
    requires r.chunkSize >= 1
  {
    && (forall c <- senders :: SenderPending(r, c, senders[c], events))
    && (forall e <- events :: EventCsid(e) in senders)
  }

  /** When one stream moves on, the others stay where they were. */
  lemma OthersPending(r: Reader, r1: Reader, senders: map<nat, Sender>, s1: Sender, events: seq<Event>)
    requires r.chunkSize == r1.chunkSize >= 1 && events != [] && EventsPending(r, senders, events)
    requires var c := EventCsid(events[0]);
             && (forall x | x != c :: Lookup(r1.states, x) == Lookup(r.states, x))
             && SenderPending(r1, c, s1, events[1..])
    ensures EventsPending(r1, senders[EventCsid(events[0]) := s1], events[1..])
  {
    hide Behaves, Tracks, SenderOk;
    var k := EventCsid(events[0]);
    forall c <- senders | c != k
      ensures SenderPending(r1, c, senders[c], events[1..])
    {
      assert SenderPending(r, c, senders[c], events);
      assert OnlyOf(events, c) == OnlyOf(events[1..], c);
    }
    forall e <- events[1..]
      ensures EventCsid(e) in senders
    {
      assert e in events;
    }
  }

  lemma AbortPending(r: Reader, senders: map<nat, Sender>, events: seq<Event>) returns (s1: Sender)
    requires ReaderOk(r) && events != [] && events[0].Aborts? && EventsPending(r, senders, events)
    ensures ReaderOk(AfterAbort(r, events[0].csid))
    ensures EventsPending(AfterAbort(r, events[0].csid), senders[events[0].csid := s1], events[1..])
  {
    var c := events[0].csid;
    var r1 := AfterAbort(r, c);
    assert events[0] in events;
    assert SenderPending(r, c, senders[c], events);
    s1 := Dropped(senders[c]);
    AbortTouchesOne(r, c);
    assert OnlyOf(events, c)[1..] == OnlyOf(events[1..], c);
    assert SenderPending(r1, c, s1, events[1..]);
    forall x | x != c
      ensures Lookup(r1.states, x) == Lookup(r.states, x)
    {
    }
    hide SenderPending;
    OthersPending(r, r1, senders, s1, events);
  }

  lemma ChunkPending(r: Reader, senders: map<nat, Sender>, events: seq<Event>) returns (s1: Sender)
    requires ReaderOk(r) && events != [] && events[0].Arrives? && EventsPending(r, senders, events)
    requires r.wire.rest == EventOctets(events)
    ensures var (step, ch) := (ReadChunk(r), events[0].chunk);
            && (match ch.completes
                case Some(m) => step.Done? && step.csid == ch.csid && step.msg == m
                case None => step.More?)
            && step.r.wire.rest == EventOctets(events[1..])
            && EventsPending(step.r, senders[ch.csid := s1], events[1..])
  {
    assert r.chunkSize >= 1;
    hide ReadChunk, Tracks, SenderOk, ReaderOk, Remaining, Advance, EventsPending;
    var ch, n := events[0].chunk, r.chunkSize;
    var c := ch.csid;
    FirstSender(r, senders, events);
    var s := senders[c];
    assert OnlyOf(events, c)[0] == events[0] && OnlyOf(events, c)[1..] == OnlyOf(events[1..], c);
    RemainingStep(c, s, n);
    ChunkOfStream(r, c, s, EventOctets(events[1..]));
    s1 := Advance(s, n);
    var r1 := ReadChunk(r).r;
    forall x | x != c
      ensures Lookup(r1.states, x) == Lookup(r.states, x)
    {
      OtherUntouched(r.states, c, r1.states[c], x);
    }
    assert SenderPending(r1, c, s1, events[1..]);
    hide SenderPending;
    OthersPending(r, r1, senders, s1, events);
  }

  lemma FirstSender(r: Reader, senders: map<nat, Sender>, events: seq<Event>)
    requires r.chunkSize >= 1 && events != [] && EventsPending(r, senders, events)
    ensures EventCsid(events[0]) in senders && SenderPending(r, EventCsid(events[0]), senders[EventCsid(events[0])], events)
  {
    hide SenderPending;
    assert events[0] in events;
  }

  /** However chunks of any number of streams and aborts of any of them alternate, the reader delivers
      each message exactly at its last chunk. */
  lemma {:induction false} AbortedInterleavingRead(r: Reader, senders: map<nat, Sender>, events: seq<Event>)
    requires ReaderOk(r) && r.wire.rest == EventOctets(events) && EventsPending(r, senders, events)
    ensures EventDeliveries(r, events) == CompletedIn(events)
    decreases |events|
  {
    hide EventsPending, ReadChunk, ReaderOk, AfterAbort;
    if events != [] {
      match events[0] {
        case Aborts(c) =>
          var s1 := AbortPending(r, senders, events);
          AbortTouchesOne(r, c);
          assert [] + EventOctets(events[1..]) == EventOctets(events[1..]);
          AbortedInterleavingRead(AfterAbort(r, c), senders[c := s1], events[1..]);
        case Arrives(ch) =>
          var s1 := ChunkPending(r, senders, events);
          AbortedInterleavingRead(ReadChunk(r).r, senders[ch.csid := s1], events[1..]);
      }
    }
  }

  // -------------------------------------------------------------- whole streams

  /** The chunks of a stream that is never aborted. */
  function AllArrive(chunks: seq<Chunk>): seq<Event> {
    if chunks == [] then [] else [Arrives(chunks[0])] + AllArrive(chunks[1..])
  }

  lemma {:induction false} CompletedInOnly(events: seq<Event>, csid: nat)
    ensures On(CompletedIn(events), csid) == On(CompletedIn(OnlyOf(events, csid)), csid)
  {
    if events != [] {
      var more := events[1..];
      CompletedInOnly(more, csid);
      OnAppend(Completes(events[0]), CompletedIn(more), csid);
      if EventCsid(events[0]) == csid {
        assert OnlyOf(events, csid)[1..] == OnlyOf(more, csid);
        OnAppend(Completes(events[0]), CompletedIn(OnlyOf(more, csid)), csid);
      } else {
        assert OnlyOf(events, csid) == OnlyOf(more, csid);
      }
    }
  }

  lemma {:induction false} CompletedInChunks(chunks: seq<Chunk>)
    ensures CompletedIn(AllArrive(chunks)) == Completed(chunks)
  {
    if chunks != [] {
      CompletedInChunks(chunks[1..]);
      assert AllArrive(chunks)[1..] == AllArrive(chunks[1..]);
    }
  }

  /** Any number of streams written independently on distinct chunk streams, mixed chunk by chunk, with
      any of them stopping or being aborted any number of times: every message whose last chunk arrives
      is delivered, in that order, and a stream that is not aborted itself and not cut short delivers
      exactly its messages. */
  lemma StreamsSurviveAborts(streams: map<nat, seq<Message>>, events: seq<Event>, n: nat)
    requires 1 <= n <= MAX_CHUNK_SIZE
    requires forall c <- streams :: CsidInRange(c) && forall m <- streams[c] :: |m.payload| < 0x100_0000
    requires forall c <- streams :: Behaves(c, Sender(FRESH_OUT, [], 0, streams[c]), OnlyOf(events, c), n)
    requires forall e <- events :: EventCsid(e) in streams
    ensures var got := EventDeliveries(Reader(n, map[], Wire(EventOctets(events), 0)), events);
            && got == CompletedIn(events)
            && forall c <- streams ::
              OnlyOf(events, c) == AllArrive(StreamChunks(c, FRESH_OUT, streams[c], n)) ==> On(got, c) == streams[c]
  {
    hide StreamChunks, EventDeliveries, Completed, CompletedIn, OnlyOf, Behaves;
    var r := Reader(n, map[], Wire(EventOctets(events), 0));
    var senders := map c | c in streams :: Sender(FRESH_OUT, [], 0, streams[c]);
    AbortedInterleavingRead(r, senders, events);
    forall c <- streams | OnlyOf(events, c) == AllArrive(StreamChunks(c, FRESH_OUT, streams[c], n))
      ensures On(CompletedIn(events), c) == streams[c]
    {
      CompletedInOnly(events, c);
      CompletedInChunks(StreamChunks(c, FRESH_OUT, streams[c], n));
      CompletedByStream(c, FRESH_OUT, streams[c], n);
    }
  }

  // ---------------------------------------------------------------- as calls see it

  /** What reads return and aborts do, call by call. */
  function Results(r: Reader, calls: seq<Call>): seq<(nat, Message)>
    requires ReaderOk(r)
    decreases |calls|
  {
    if calls == [] then []
    else if calls[0].Read? then
      match ReadMessage(r)
      case Done(r1, c, m) => [(c, m)] + Results(r1, calls[1..])
      case _ => []
    else Results(AfterCall(r, calls[0]), calls[1..])
  }

  /** One read for each chunk that completes a message, and the aborts between them. */
  function CallsOf(events: seq<Event>): seq<Call> {
    if events == [] then []
    else
      (match events[0]
       case Aborts(c) => [Abort(c)]
       case Arrives(ch) => if ch.completes.Some? then [Read] else [])
      + CallsOf(events[1..])
  }

  /** Aborts come between reads only: at the start, behind a last chunk, or behind another abort. */
  predicate BetweenReads(events: seq<Event>, reading: bool)
    decreases |events|
  {
    events == [] ||
    match events[0]
    case Aborts(_) => !reading && BetweenReads(events[1..], false)
    case Arrives(ch) => BetweenReads(events[1..], ch.completes.None?)
  }

  lemma {:induction false} CallsFollow(r: Reader, senders: map<nat, Sender>, events: seq<Event>, reading: bool)
    requires ReaderOk(r) && r.wire.rest == EventOctets(events) && EventsPending(r, senders, events)
    requires BetweenReads(events, reading)
    ensures Results(r, CallsOf(events)) == CompletedIn(events)
    decreases |events|
  {
    hide EventsPending, ReadChunk, ReaderOk, AfterAbort;
    if events != [] {
      var more := events[1..];
      match events[0] {
        case Aborts(c) =>
          var s1 := AbortPending(r, senders, events);
          AbortTouchesOne(r, c);
          assert [] + EventOctets(more) == EventOctets(more);
          CallsFollow(AfterAbort(r, c), senders[c := s1], more, false);
          assert CallsOf(events)[0] == Abort(c) && CallsOf(events)[1..] == CallsOf(more);
        case Arrives(ch) =>
          var s1 := ChunkPending(r, senders, events);
          var r1 := ReadChunk(r).r;
          CallsFollow(r1, senders[ch.csid := s1], more, ch.completes.None?);
          if ch.completes.Some? {
            assert CallsOf(events)[0] == Read && CallsOf(events)[1..] == CallsOf(more);
          } else {
            assert CallsOf(events) == CallsOf(more) && ReadMessage(r) == ReadMessage(r1);
            ReadsThrough(r, r1, more);
          }
      }
    }
  }

  /** Where no abort comes first, it does not matter whether a chunk has been read already. */
  lemma {:induction false} ReadsThrough(r: Reader, r1: Reader, more: seq<Event>)
    requires ReaderOk(r) && ReaderOk(r1) && ReadMessage(r) == ReadMessage(r1) && BetweenReads(more, true)
    ensures Results(r, CallsOf(more)) == Results(r1, CallsOf(more))
    decreases |more|
  {
    hide ReadMessage, AfterCall, ReaderOk;
    if more != [] {
      if more[0].chunk.completes.Some? {
        assert CallsOf(more)[0] == Read;
      } else {
        assert CallsOf(more) == CallsOf(more[1..]);
        ReadsThrough(r, r1, more[1..]);
      }
    }
  }

  /** The same through the interface: one read for each completed message, with aborts in between. */
  lemma CallsDeliver(r: Reader, senders: map<nat, Sender>, events: seq<Event>)
    requires ReaderOk(r) && r.wire.rest == EventOctets(events) && EventsPending(r, senders, events) && BetweenReads(events, false)
    ensures Results(r, CallsOf(events)) == CompletedIn(events)
  {
    CallsFollow(r, senders, events, false);
  }
}
