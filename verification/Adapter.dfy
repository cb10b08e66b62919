/** The packet source over a session, with and without probing. */
module Adapter {
  import opened Bytes
  import opened FlvModel
  import opened AdapterModel
  import opened AdapterStreams

  /** What a caller sees who asks `n` times. */
  function Observed(due: seq<Reply>, n: nat): seq<Reply> {
    if n == 0 then [] else if due == [] then [Eof] + Observed([], n - 1) else [due[0]] + Observed(due[1..], n - 1)
  }

  /** The events of a session without the one at `i`. */
  function Without(events: seq<Event>, i: nat): seq<Event>
    requires i < |events|
  {
    events[..i] + events[i + 1..]
  }

  class PacketSource {
    var session: seq<Event>
    var clock: Clock
    var extra: seq<Extra>
    var streams: seq<Stream>
    var metadata: seq<(seq<byte>, seq<byte>)>
    var buffered: seq<Packet>
    var pending: seq<Packet>
    var ended: bool

    ghost function Known(): Core
      reads this
    {
      Core(clock, extra, streams, metadata)
    }

    ghost predicate Valid()
      reads this
    {
      CoreOk(Known())
    }

    /** All replies the source still owes before it answers `Eof` for good. */
    ghost function Due(): seq<Reply>
      reads this
    {
      Oks(buffered) + Oks(pending) + (if ended then [] else Deliver(Known(), session))
    }

    /** What the source will know in the end. */
    ghost function InTheEnd(): Core
      reads this
    {
      if ended then Known() else AtEnd(Known(), session)
    }

    /** A source over a session, without probing. */
    constructor (events: seq<Event>)
      ensures Valid() && Known() == FRESH && session == events && buffered == [] && pending == [] && !ended
      ensures Due() == Deliver(FRESH, events) && InTheEnd() == AtEnd(FRESH, events)
    {
      session := events;
      clock, extra, streams, metadata := None, [], [], [];
      buffered, pending, ended := [], [], false;
      new;
      assert Oks([]) + Oks([]) + Deliver(FRESH, events) == Deliver(FRESH, events);
    }

    method NextEvent() returns (e: Event)
      modifies this`session
      ensures old(session) == [] ==> e == End && session == []
      ensures old(session) != [] ==> e == old(session)[0] && session == old(session)[1..]
    {
      if session == [] {
        return End;
      }
      e, session := session[0], session[1..];
    }

    method UnwrapMs(raw: u32) returns (ms: int)
      modifies this`clock
      ensures ms == Unwrapped(old(clock), raw) && clock == Some((raw, ms))
    {
      ms := match clock
        case None => raw
        case Some((prev, ext)) => ext + Signed32(WrapSub(raw, prev));
      clock := Some((raw, ms));
    }

    /** The stream of a track, assigned when the track is new. */
    method TrackIndex(audio: bool, track: byte) returns (index: nat)
      modifies this`extra
      ensures extra == Assigned(old(extra), audio, track)
      ensures index == match IndexOf(old(extra), audio, track) case Some(i) => i case None => 2 + |old(extra)|
    {
      if track == 0 {
        return if audio then AUDIO_STREAM else VIDEO_STREAM;
      }
      var i := 0;
      while i < |extra|
        invariant 0 <= i <= |extra| && extra == old(extra)
        invariant Find(extra, audio, track) == Find(extra[i..], audio, track)
      {
        if extra[i].audio == audio && extra[i].track == track {
          return extra[i].index;
        }
        assert extra[i..][1..] == extra[i + 1..];
        i := i + 1;
      }
      index := 2 + |extra|;
      extra := extra + [Extra(audio, track, index)];
    }

    /** Adds a stream unless it is there; the table stays sorted. */
    method EnsureStream(s: Stream)
      requires Sorted(streams)
      modifies this`streams
      ensures streams == Registered(old(streams), s)
    {
      var i := 0;
      while i < |streams|
        invariant 0 <= i <= |streams| && streams == old(streams)
        invariant forall j :: 0 <= j < i ==> streams[j].index != s.index
      {
        if streams[i].index == s.index {
          return;
        }
        i := i + 1;
      }
      var at := 0;
      while at < |streams| && streams[at].index < s.index
        invariant 0 <= at <= |streams| && streams == old(streams)
        invariant Insert(streams, s) == streams[..at] + Insert(streams[at..], s)
      {
        assert streams[at..][1..] == streams[at + 1..] && streams[..at + 1] == streams[..at] + [streams[at]];
        Assoc3(streams[..at], [streams[at]], Insert(streams[at + 1..], s));
        at := at + 1;
      }
      streams := streams[..at] + ([s] + streams[at..]);
    }

    /** One packet for each track of a message; the new streams are registered on the way. */
    method MediaPackets(ms: int, m: Media) returns (r: Option<seq<Packet>>)
      requires Valid()
      modifies this`extra, this`streams
      ensures Valid()
      ensures match Split(m)
              case None => r == None && Known() == old(Known())
              case Some(parts) => r == Some(PacketsOf(old(Known()), ms, parts, OuterNano(m))) && Known() == PlacedAll(old(Known()), parts)
    {
      hide CoreOk, Split, OuterNano, MediaPacket, Assigned, IndexOf, Registered;
      var parts := Split(m);
      if parts.None? {
        return None;
      }
      var out: seq<Packet> := [];
      var nano := OuterNano(m);
      ghost var all := PacketsOf(Known(), ms, parts.value, nano);
      assert parts.value[0..] == parts.value;
      for i := 0 to |parts.value|
        invariant CoreOk(Known()) && clock == old(clock) && metadata == old(metadata)
        invariant all == out + PacketsOf(Known(), ms, parts.value[i..], nano)
        invariant PlacedAll(old(Known()), parts.value) == PlacedAll(Known(), parts.value[i..])
      {
        ghost var before := Known();
        var (track, tag) := parts.value[i];
        PlacedKeeps(before, track, tag);
        SortedCore(before);
        var index := TrackIndex(tag.AudioMedia?, track);
        EnsureStream(Stream(index, tag));
        assert Known() == Placed(before, track, tag);
        assert parts.value[i..][1..] == parts.value[i + 1..];
        var p := MediaPacket(ms, tag, index, nano);
        Assoc3(out, [p], PacketsOf(Known(), ms, parts.value[i + 1..], nano));
        out := out + [p];
      }
      assert parts.value[|parts.value|..] == [] && out + [] == out;
      return Some(out);
    }

    /** Reads events until one yields a reply, or the end. */
    method SteadyNext() returns (r: Reply)
      requires Valid() && buffered == [] && pending == [] && !ended
      modifies this
      ensures Valid() && InTheEnd() == old(InTheEnd())
      ensures old(Due()) == [] ==> r == Eof && Due() == [] && ended
      ensures old(Due()) != [] ==> r == old(Due())[0] && Due() == old(Due())[1..]
    {
      hide CoreOk, Split, PacketsOf, PlacedAll, OuterNano, Unwrapped;
      ghost var due, last := Due(), InTheEnd();
      while true
        invariant Valid() && buffered == [] && pending == [] && !ended
        invariant Due() == due && InTheEnd() == last
        decreases |session|
      {
        ghost var core, todo := Known(), session;
        NoneOwed(Deliver(core, todo));
        var e := NextEvent();
        AfterKeeps(core, e);
        match e {
          case Frame(raw, m) =>
            var ms := UnwrapMs(raw);
            TimedOk(core, raw);
            var packets := MediaPackets(ms, m);
            assert Known() == After(core, e);
            if packets.None? {
              NoneOwed(Deliver(Known(), session));
              FirstOwed([Error], Deliver(Known(), session));
              return Error;
            }
            if packets.value != [] {
              pending := packets.value[1..];
              PacketOwed(packets.value, Deliver(Known(), session));
              return Ok(packets.value[0]);
            }
            assert due == Oks([]) + Deliver(Known(), session);
          case Metadata(entries) =>
            metadata := metadata + entries;
          case Skip =>
          case End =>
            ended := true;
            return Eof;
          case Fails(fault) =>
            r := if fault == BrokenOff then Eof else Error;
            FirstOwed([r], Deliver(core, session));
            return r;
        }
        NoneOwed(Deliver(Known(), session));
      }
    }

    /** Takes in an event while probing, keeping its packets. */
    method Absorb(e: Event) returns (ok: bool)
      requires Valid() && (e.Frame? || e.Metadata? || e.Skip?)
      modifies this`clock, this`extra, this`streams, this`metadata, this`buffered
      ensures Valid() && ok == Quiet(e)
      ensures ok ==> Known() == After(old(Known()), e) && Oks(buffered) == Oks(old(buffered)) + Replies(old(Known()), e)
    {
      hide CoreOk, Split, PacketsOf, PlacedAll, OuterNano, Unwrapped;
      ghost var core := Known();
      AfterKeeps(core, e);
      match e {
        case Frame(raw, m) =>
          var ms := UnwrapMs(raw);
          TimedOk(core, raw);
          var packets := MediaPackets(ms, m);
          if packets.None? {
            return false;
          }
          MoreOks(buffered, packets.value);
          buffered := buffered + packets.value;
        case Metadata(entries) =>
          metadata := metadata + entries;
        case Skip =>
      }
      return true;
    }

    /** The first reply owed, or `Eof` once none is. */
    method NextPacket() returns (r: Reply)
      requires Valid()
      modifies this
      ensures Valid() && InTheEnd() == old(InTheEnd())
      ensures old(Due()) == [] ==> r == Eof && Due() == [] && ended
      ensures old(Due()) != [] ==> r == old(Due())[0] && Due() == old(Due())[1..]
    {
      hide CoreOk, Deliver;
      ghost var more := if ended then [] else Deliver(Known(), session);
      if buffered != [] {
        r := Ok(buffered[0]);
        Assoc3(Oks(buffered), Oks(pending), more);
        PacketOwed(buffered, Oks(pending) + more);
        buffered := buffered[1..];
        return r;
      }
      assert Oks(buffered) + Oks(pending) + more == Oks(pending) + more;
      if pending != [] {
        r := Ok(pending[0]);
        PacketOwed(pending, more);
        pending := pending[1..];
        return r;
      }
      if ended {
        return Eof;
      }
      r := SteadyNext();
    }

    /** The replies to `n` requests. */
    method Ask(n: nat) returns (rs: seq<Reply>)
      requires Valid()
      modifies this
      ensures Valid() && rs == Observed(old(Due()), n) && InTheEnd() == old(InTheEnd())
      ensures n > |old(Due())| ==> ended && Due() == [] && Known() == old(InTheEnd())
    {
      hide CoreOk, Deliver;
      rs := [];
      ghost var due := Due();
      for i := 0 to n
        invariant Valid() && InTheEnd() == old(InTheEnd())
        invariant Observed(due, n) == rs + Observed(Due(), n - i)
        invariant i <= |due| ==> |Due()| == |due| - i
        invariant i > |due| ==> ended && Due() == []
      {
        ghost var owed := Due();
        var r := NextPacket();
        Assoc3(rs, [r], Observed(Due(), n - i - 1));
        rs := rs + [r];
      }
    }
  }

  lemma SortedCore(core: Core)
    requires CoreOk(core)
    ensures Sorted(core.streams)
  {
  }

  lemma NoneOwed(more: seq<Reply>)
    ensures Oks([]) + Oks([]) + more == more && Oks([]) + more == more
  {
  }

  lemma FirstOwed(r: seq<Reply>, more: seq<Reply>)
    requires |r| == 1
    ensures (r + more)[0] == r[0] && (r + more)[1..] == more
  {
  }

  lemma PacketOwed(ps: seq<Packet>, more: seq<Reply>)
    requires ps != []
    ensures Oks(ps) + more != [] && (Oks(ps) + more)[0] == Ok(ps[0]) && (Oks(ps) + more)[1..] == Oks(ps[1..]) + more
    ensures Oks([]) + Oks(ps[1..]) + more == Oks(ps[1..]) + more
  {
    assert Oks(ps)[1..] == Oks(ps[1..]);
  }

  lemma TimedOk(core: Core, raw: u32)
    requires CoreOk(core)
    ensures CoreOk(Timed(core, raw))
  {
  }

  // ---------------------------------------------------------------------- probing

  /** The events yield packets or nothing: no failure, no malformed track, no end. */
  predicate Smooth(events: seq<Event>) {
    forall i :: 0 <= i < |events| ==> Quiet(events[i])
  }

  predicate Quiet(e: Event) {
    match e
    case Frame(_, m) => Split(m).Some?
    case Fails(_) => false
    case End => false
    case _ => true
  }

  function AfterAll(core: Core, events: seq<Event>): Core {
    if events == [] then core else After(AfterAll(core, events[..|events| - 1]), events[|events| - 1])
  }

  function RepliesAll(core: Core, events: seq<Event>): seq<Reply> {
    if events == [] then []
    else
      var n := |events| - 1;
      RepliesAll(core, events[..n]) + Replies(AfterAll(core, events[..n]), events[n])
  }

  /** Running over some events first changes nothing about the rest. */
  lemma {:induction false} RunSplits(core: Core, xs: seq<Event>, ys: seq<Event>)
    requires Smooth(xs)
    ensures Deliver(core, xs + ys) == RepliesAll(core, xs) + Deliver(AfterAll(core, xs), ys)
    ensures AtEnd(core, xs + ys) == AtEnd(AfterAll(core, xs), ys)
    decreases |xs|
  {
    hide After, Replies;
    if xs == [] {
      assert [] + ys == ys;
    } else {
      var n := |xs| - 1;
      var x, before := xs[n], xs[..n];
      assert Quiet(x);
      assert xs + ys == before + ([x] + ys);
      RunSplits(core, before, [x] + ys);
      var c := AfterAll(core, before);
      assert ([x] + ys)[1..] == ys;
      Assoc3(RepliesAll(core, before), Replies(c, x), Deliver(After(c, x), ys));
    }
  }

  predicate Carries(e: Event, audio: bool) {
    e.Frame? && e.media.AudioMedia? == audio
  }

  predicate Seen(events: seq<Event>, audio: bool) {
    exists i :: 0 <= i < |events| && Carries(events[i], audio)
  }

  /** Nothing more is to be learned from further events. */
  predicate Enough(events: seq<Event>) {
    |events| == 32 || (Seen(events, true) && Seen(events, false))
  }

  /** Probing takes in the first `k` events and no more: all of them are smooth, fewer are not enough,
      and then they are enough, or the next event is not one to take in. */
  predicate TakesIn(events: seq<Event>, k: nat) {
    && k <= |events| && Smooth(events[..k])
    && (forall i :: 0 <= i < k ==> !Enough(events[..i]))
    && (Enough(events[..k]) || k == |events| || !Quiet(events[k]))
  }

  /** One event more is read, and ends the probing. */
  predicate ReadsOn(events: seq<Event>, k: nat) {
    k < |events| && !Enough(events[..k])
  }

  predicate Refused(e: Event) {
    !Quiet(e) && !e.End? && e != Fails(TimedOut)
  }

  lemma TakesInOnce(events: seq<Event>, j: nat, k: nat)
    requires TakesIn(events, j) && TakesIn(events, k)
    ensures j == k
  {
    SmoothAt(events, j, k);
    SmoothAt(events, k, j);
    hide Enough, Quiet, Smooth;
  }

  lemma SmoothAt(events: seq<Event>, i: nat, n: nat)
    requires n <= |events|
    ensures Smooth(events[..n]) && i < n ==> Quiet(events[i])
  {
    hide Quiet;
    if Smooth(events[..n]) && i < n {
      assert events[..n][i] == events[i];
    }
  }

  /** Reads events until both kinds of media were seen, but no more than `PROBE_LIMIT`, and keeps their
      packets. It fails exactly when the event that ends the probing is a malformed message or a failed
      read. A read that times out ends the probing too, and is forgotten. */
  method OpenProbed(events: seq<Event>) returns (r: Option<PacketSource>, ghost k: nat)
    ensures TakesIn(events, k) && k <= 32
    ensures r.None? <==> ReadsOn(events, k) && Refused(events[k])
    ensures r.Some? ==>
              && fresh(r.value) && r.value.Valid()
              && r.value.session == (if ReadsOn(events, k) then events[k + 1..] else events[k..])
              && var seen := if ReadsOn(events, k) && events[k] == Fails(TimedOut) then Without(events, k) else events;
                 r.value.Due() == Deliver(FRESH, seen) && r.value.InTheEnd() == AtEnd(FRESH, seen)
  {
    hide CoreOk, After, Replies, Deliver, AtEnd, Smooth, Quiet, AfterAll, RepliesAll, Enough, Seen, Carries, Going, TakesIn, ReadsOn;
    var s := new PacketSource(events);
    var haveAudio, haveVideo := false, false;
    var n := 0;
    AllAhead(events);
    while n < PROBE_LIMIT && !(haveAudio && haveVideo)
      invariant 0 <= n <= PROBE_LIMIT && n <= |events| && Going(events, n)
      invariant haveAudio == Seen(events[..n], true) && haveVideo == Seen(events[..n], false)
      invariant s.Valid() && !s.ended && s.pending == [] && fresh(s) && s.session == events[n..]
      invariant s.Known() == AfterAll(FRESH, events[..n]) && Oks(s.buffered) == RepliesAll(FRESH, events[..n])
      decreases PROBE_LIMIT - n
    {
      ghost var core := s.Known();
      k := n;
      GoingSmooth(events, n);
      RunAt(events, n);
      EnoughIff(events[..n]);
      StopAt(events, n);
      var e := s.NextEvent();
      Loud(e);
      match e {
        case End =>
          s.ended := true;
          EndsHere(core, events[n..]);
          return Some(s), n;
        case Fails(fault) =>
          if fault != TimedOut {
            return None, n;
          }
          RunSplits(FRESH, events[..n], events[n + 1..]);
          return Some(s), n;
        case _ =>
          var ok := s.Absorb(e);
          if !ok {
            return None, n;
          }
          haveAudio := haveAudio || Carries(e, true);
          haveVideo := haveVideo || Carries(e, false);
      }
      OneMore(events, n);
      GoesOn(events, n);
      n := n + 1;
    }
    k := n;
    EnoughIff(events[..n]);
    StopAt(events, n);
    GoingSmooth(events, n);
    RunAt(events, n);
    NoneOwed(s.Due());
    return Some(s), n;
  }

  /** The first `n` events were taken in. */
  predicate Going(events: seq<Event>, n: nat)
    requires n <= |events|
  {
    Smooth(events[..n]) && forall i :: 0 <= i < n ==> !Enough(events[..i])
  }

  lemma GoingSmooth(events: seq<Event>, n: nat)
    requires n <= |events| && Going(events, n)
    ensures Smooth(events[..n])
  {
  }

  lemma GoesOn(events: seq<Event>, n: nat)
    requires n < |events| && Going(events, n) && !Enough(events[..n]) && Smooth(events[..n + 1])
    ensures Going(events, n + 1)
  {
    hide Smooth, Enough;
  }

  lemma StopAt(events: seq<Event>, n: nat)
    requires n <= |events| && Going(events, n)
    ensures TakesIn(events, n) <==> Enough(events[..n]) || n == |events| || !Quiet(events[n])
    ensures ReadsOn(events, n) <==> n < |events| && !Enough(events[..n])
  {
    hide Smooth, Enough, Quiet;
  }

  lemma EnoughIff(events: seq<Event>)
    ensures Enough(events) <==> |events| == PROBE_LIMIT || (Seen(events, true) && Seen(events, false))
  {
  }

  lemma Loud(e: Event)
    ensures e.Fails? || e.End? ==> !Quiet(e)
  {
  }

  lemma AllAhead(events: seq<Event>)
    ensures Going(events, 0) && forall audio :: !Seen(events[..0], audio)
    ensures events[0..] == events && Smooth(events[..0]) && AfterAll(FRESH, events[..0]) == FRESH && RepliesAll(FRESH, events[..0]) == []
  {
  }

  lemma RunAt(events: seq<Event>, n: nat)
    requires n <= |events| && Smooth(events[..n])
    ensures Deliver(FRESH, events) == RepliesAll(FRESH, events[..n]) + Deliver(AfterAll(FRESH, events[..n]), events[n..])
    ensures AtEnd(FRESH, events) == AtEnd(AfterAll(FRESH, events[..n]), events[n..])
  {
    assert events == events[..n] + events[n..];
    RunSplits(FRESH, events[..n], events[n..]);
  }

  lemma OneMore(events: seq<Event>, n: nat)
    requires n < |events| && Smooth(events[..n]) && Quiet(events[n])
    ensures Smooth(events[..n + 1]) && events[n..][1..] == events[n + 1..]
    ensures forall audio :: Seen(events[..n + 1], audio) <==> Seen(events[..n], audio) || Carries(events[n], audio)
    ensures AfterAll(FRESH, events[..n + 1]) == After(AfterAll(FRESH, events[..n]), events[n])
    ensures RepliesAll(FRESH, events[..n + 1]) == RepliesAll(FRESH, events[..n]) + Replies(AfterAll(FRESH, events[..n]), events[n])
  {
    hide Quiet, After, Replies, Carries;
    assert events[..n + 1] == events[..n] + [events[n]];
    forall audio
      ensures Seen(events[..n + 1], audio) <==> Seen(events[..n], audio) || Carries(events[n], audio)
    {
      SeenMore(events[..n], events[n], audio);
    }
    assert events[..n + 1][..n] == events[..n];
  }

  lemma SeenMore(events: seq<Event>, e: Event, audio: bool)
    ensures Seen(events + [e], audio) <==> Seen(events, audio) || Carries(e, audio)
  {
    var more := events + [e];
    if Carries(e, audio) {
      assert Carries(more[|events|], audio);
    }
    if i :| 0 <= i < |events| && Carries(events[i], audio) {
      assert Carries(more[i], audio);
    }
  }

  lemma MoreOks(a: seq<Packet>, b: seq<Packet>)
    ensures Oks(a + b) == Oks(a) + Oks(b)
  {
  }

  lemma EndsHere(core: Core, events: seq<Event>)
    requires events == [] || events[0].End?
    ensures Deliver(core, events) == [] && AtEnd(core, events) == core
  {
  }

  /** The event that ends the probing, if any, is the end of the session. */
  predicate ProbesWell(events: seq<Event>) {
    forall k | 0 <= k <= |events| && TakesIn(events, k) :: ReadsOn(events, k) ==> events[k].End?
  }

  /** Probing is not seen: whatever is asked, the probed source and the plain one reply alike, and when
      they have nothing more to say they have the same tracks, streams and metadata. */
  method ProbingIsTransparent(events: seq<Event>, n: nat) returns (plain: seq<Reply>, probed: seq<Reply>, same: bool)
    requires ProbesWell(events)
    ensures plain == probed == Observed(Deliver(FRESH, events), n)
    ensures n > |Deliver(FRESH, events)| ==> same
  {
    hide CoreOk, Deliver, AtEnd, TakesIn;
    var a := new PacketSource(events);
    var b, _ := OpenProbed(events);
    var p := b.value;
    plain := a.Ask(n);
    probed := p.Ask(n);
    same := a.clock == p.clock && a.extra == p.extra && a.streams == p.streams && a.metadata == p.metadata;
  }

  lemma {:induction false} ObservedPadded(due: seq<Reply>, n: nat)
    requires n <= |due| + 1
    ensures Observed(due, n) == (due + [Eof])[..n]
  {
    if n > 0 {
      if due == [] {
        assert Observed([], 0) == [];
      } else {
        ObservedPadded(due[1..], n - 1);
        assert due == [due[0]] + due[1..];
      }
    }
  }

  lemma CountShows(a: seq<Reply>, b: seq<Reply>)
    ensures a + ([Error] + b) != (a + b) + [Eof]
  {
    assert multiset(a + ([Error] + b))[Error] == multiset(a)[Error] + 1 + multiset(b)[Error];
    assert multiset((a + b) + [Eof])[Error] == multiset(a)[Error] + multiset(b)[Error];
  }

  lemma ObservedWhole(due: seq<Reply>)
    ensures Observed(due, |due|) == due && Observed(due, |due| + 1) == due + [Eof]
  {
    hide Observed;
    ObservedPadded(due, |due|);
    ObservedPadded(due, |due| + 1);
    SplitAt(due, [Eof]);
    assert (due + [Eof])[..|due| + 1] == due + [Eof];
  }

  /** One reply more or less can be seen. */
  lemma OneReplyShows(c: seq<Reply>, a: seq<Reply>, b: seq<Reply>)
    requires c == a + ([Error] + b)
    ensures Observed(c, |c|) != Observed(a + b, |c|)
  {
    hide Observed;
    CountShows(a, b);
    LongerShows(c, a + b);
  }

  lemma LongerShows(c: seq<Reply>, d: seq<Reply>)
    requires |c| == |d| + 1 && c != d + [Eof]
    ensures Observed(c, |c|) != Observed(d, |c|)
  {
    hide Observed;
    ObservedWhole(c);
    ObservedWhole(d);
  }

  /** A read that timed out while probing and was forgotten does show: the plain source reports it. */
  lemma ForgottenShows(events: seq<Event>, k: nat)
    requires k < |events| && Smooth(events[..k]) && events[k] == Fails(TimedOut)
    ensures exists n :: Observed(Deliver(FRESH, events), n) != Observed(Deliver(FRESH, Without(events, k)), n)
  {
    hide Deliver, RepliesAll, AfterAll, Observed, Smooth;
    var before, after := events[..k], events[k + 1..];
    var core := AfterAll(FRESH, before);
    RunSplits(FRESH, before, after);
    RunSplits(FRESH, before, [events[k]] + after);
    assert events == before + ([events[k]] + after);
    TimedOutReply(core, after);
    OneReplyShows(Deliver(FRESH, events), RepliesAll(FRESH, before), Deliver(core, after));
  }

  lemma TimedOutReply(core: Core, after: seq<Event>)
    ensures Deliver(core, [Fails(TimedOut)] + after) == [Error] + Deliver(core, after)
  {
    assert ([Fails(TimedOut)] + after)[1..] == after;
  }

  /** So a source that opens hides its probing exactly when the event that ends the probing, if any, is
      the end of the session. */
  lemma TransparentIff(events: seq<Event>, k: nat)
    requires TakesIn(events, k) && !(ReadsOn(events, k) && Refused(events[k]))
    ensures var seen := if ReadsOn(events, k) && events[k] == Fails(TimedOut) then Without(events, k) else events;
            (forall n :: Observed(Deliver(FRESH, events), n) == Observed(Deliver(FRESH, seen), n)) <==> ProbesWell(events)
  {
    hide Deliver, Observed, Enough, Quiet, Smooth;
    forall j | 0 <= j <= |events| && TakesIn(events, j)
      ensures j == k
    {
      TakesInOnce(events, j, k);
    }
    if ReadsOn(events, k) && events[k] == Fails(TimedOut) {
      ForgottenShows(events, k);
    }
  }
}
