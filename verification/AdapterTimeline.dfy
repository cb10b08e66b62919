/** Packets carry true times: what the wire's 32 bits lose is recovered over whole sessions. */
module AdapterTimeline {
  import opened Bytes
  import opened FlvModel
  import opened FlvRoundTrip
  import opened AdapterModel

  // ------------------------------------------------------------------ one packet

  /** Each modifier contributes its own offset, whatever stands around it, until the sum saturates. */
  lemma {:induction false} OffsetsAdd(a: seq<ModEx>, b: seq<ModEx>)
    ensures OffsetNano(a + b) == Min(OffsetNano(a) + OffsetNano(b), U32_MOD - 1)
    ensures OffsetNano(a) < U32_MOD
    decreases |b|
  {
    if b == [] {
      assert a + b == a;
      OffsetSmall(a);
    } else {
      var n := |b| - 1;
      assert (a + b)[..|a| + n] == a + b[..n] && (a + b)[|a| + n] == b[n];
      OffsetsAdd(a, b[..n]);
    }
  }

  lemma {:induction false} OffsetSmall(a: seq<ModEx>)
    ensures OffsetNano(a) < U32_MOD
  {
    if a != [] {
      OffsetSmall(a[..|a| - 1]);
    }
  }

  /** The distance from decoding to presentation that a tag asks for. */
  function Lead(m: Media): int {
    match m
    case AudioMedia(_) => 0
    case VideoMedia(v) => v.cts * MS_TO_NS + OffsetNano(v.modEx)
  }

  /** The time from which that is counted. */
  function Base(ms: int, m: Media, extra: nat): int {
    match m
    case AudioMedia(a) => ms * MS_TO_NS + OffsetNano(a.modEx) + extra
    case VideoMedia(_) => ms * MS_TO_NS
  }

  predicate MediaOk(m: Media) {
    match m
    case AudioMedia(a) => AudioOk(a)
    case VideoMedia(v) => VideoOk(v)
  }

  /** A well-formed tag's composition time always reaches the presentation time, also where the code
      does not look for one, since there it is zero. */
  lemma PacketTimes(ms: int, m: Media, stream: nat, extra: nat)
    requires MediaOk(m)
    ensures var p := MediaPacket(ms, m, stream, extra);
            && p.dts == Base(ms, m, extra)
            && p.pts - p.dts == Lead(m) + (if m.VideoMedia? then extra else 0)
  {
    hide PreludeOk, TracksOk, OffsetNano;
    if m.VideoMedia? {
      NoCts(m.video.cts);
    }
  }

  // --------------------------------------------------------------------- sessions

  /** Frames sent at the given times. */
  function SentAt(times: seq<int>, ms: seq<Media>): seq<Event>
    requires |times| == |ms|
  {
    if times == [] then [] else [Frame(Wrapped(times[0]), ms[0])] + SentAt(times[1..], ms[1..])
  }

  function RepliesAt(core: Core, time: int, m: Media): seq<Reply> {
    match Split(m)
    case None => [Error]
    case Some(parts) => Oks(PacketsOf(core, time, parts, OuterNano(m)))
  }

  function AfterFrame(core: Core, m: Media): Core {
    match Split(m)
    case None => core
    case Some(parts) => PlacedAll(core, parts)
  }

  /** The packets of such a session, if all times were known in full. */
  function DeliverAt(core: Core, times: seq<int>, ms: seq<Media>): seq<Reply>
    requires |times| == |ms|
    decreases |times|
  {
    if times == [] then []
    else RepliesAt(core, times[0], ms[0]) + DeliverAt(AfterFrame(core, ms[0]), times[1..], ms[1..])
  }

  /** Which streams packets go to does not depend on the clock. */
  lemma {:induction false} ClockAside(core: Core, clock: Clock, ms: int, parts: Parts, nano: nat)
    ensures PacketsOf(core.(clock := clock), ms, parts, nano) == PacketsOf(core, ms, parts, nano)
    ensures PlacedAll(core.(clock := clock), parts) == PlacedAll(core, parts).(clock := clock)
    decreases |parts|
  {
    hide MediaPacket, IndexOf, Assigned, Registered;
    if parts != [] {
      ClockAside(Placed(core, parts[0].0, parts[0].1), clock, ms, parts[1..], nano);
    }
  }

  lemma {:induction false} DeliversFrom(core: Core, last: int, times: seq<int>, ms: seq<Media>)
    requires |times| == |ms| && ShortSteps(last, times)
    ensures Deliver(core.(clock := Some((Wrapped(last), last))), SentAt(times, ms)) == DeliverAt(core, times, ms)
    decreases |times|
  {
    hide Split, PacketsOf, PlacedAll, OuterNano, Signed32, WrapSub, Wrapped;
    if times != [] {
      var from := core.(clock := Some((Wrapped(last), last)));
      StepUnwraps(last, times[0]);
      OneFrame(from, core, times[0], ms[0]);
      DeliversFrom(AfterFrame(core, ms[0]), times[0], times[1..], ms[1..]);
      assert SentAt(times, ms)[1..] == SentAt(times[1..], ms[1..]);
    }
  }

  lemma OneFrame(from: Core, core: Core, time: int, m: Media)
    requires Unwrapped(from.clock, Wrapped(time)) == time && from == core.(clock := from.clock)
    ensures Replies(from, Frame(Wrapped(time), m)) == RepliesAt(core, time, m)
    ensures After(from, Frame(Wrapped(time), m)) == AfterFrame(core, m).(clock := Some((Wrapped(time), time)))
  {
    hide Split, PacketsOf, PlacedAll, OuterNano, Unwrapped, Wrapped;
    if Split(m).Some? {
      ClockAside(core, Some((Wrapped(time), time)), time, Split(m).value, OuterNano(m));
      assert Timed(from, Wrapped(time)) == core.(clock := Some((Wrapped(time), time)));
    }
  }

  /** A session that starts within 32 bits and never pauses or jumps by half a turn, however long it
      lasts, delivers the packets its true times call for. */
  lemma DeliversTrueTimes(times: seq<int>, ms: seq<Media>)
    requires |times| == |ms| && (times != [] ==> 0 <= times[0] < U32_MOD && ShortSteps(times[0], times[1..]))
    ensures Deliver(FRESH, SentAt(times, ms)) == DeliverAt(FRESH, times, ms)
  {
    hide Split, PacketsOf, PlacedAll, OuterNano, Wrapped;
    if times != [] {
      FitsWrapped(times[0]);
      OneFrame(FRESH, FRESH, times[0], ms[0]);
      DeliversFrom(AfterFrame(FRESH, ms[0]), times[0], times[1..], ms[1..]);
      assert SentAt(times, ms)[1..] == SentAt(times[1..], ms[1..]);
    }
  }
}
