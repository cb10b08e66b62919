/** Streams are unique, sorted and stable, and no two tracks share one. */
module AdapterStreams {
  import opened Bytes
  import opened FlvModel
  import opened AdapterModel

  /** Tracks are numbered in the order they were met, each once. */
  predicate ExtraOk(extra: seq<Extra>) {
    && (forall i :: 0 <= i < |extra| ==> extra[i].index == 2 + i && extra[i].track != 0)
    && (forall i, j :: 0 <= i < j < |extra| ==> extra[i].audio != extra[j].audio || extra[i].track != extra[j].track)
  }

  predicate Sorted(streams: seq<Stream>) {
    forall i, j :: 0 <= i < j < |streams| ==> streams[i].index < streams[j].index
  }

  /** Every stream belongs to a track that is a default one or has been met, and is of its kind. */
  predicate Owned(s: Stream, extra: seq<Extra>) {
    && s.index < 2 + |extra|
    && s.params.AudioMedia? == (if s.index < 2 then s.index == AUDIO_STREAM else extra[s.index - 2].audio)
  }

  predicate CoreOk(core: Core) {
    ExtraOk(core.extra) && Sorted(core.streams) && (forall s :: s in core.streams ==> Owned(s, core.extra))
  }

  // ----------------------------------------------------------------------- tracks

  lemma {:induction false} FindSound(extra: seq<Extra>, audio: bool, track: byte)
    ensures match Find(extra, audio, track)
            case None => forall i :: 0 <= i < |extra| ==> extra[i].audio != audio || extra[i].track != track
            case Some(x) => exists i :: 0 <= i < |extra| && extra[i] == Extra(audio, track, x)
  {
    if extra != [] && !(extra[0].audio == audio && extra[0].track == track) {
      FindSound(extra[1..], audio, track);
      match Find(extra, audio, track) {
        case None =>
          forall i | 0 <= i < |extra|
            ensures extra[i].audio != audio || extra[i].track != track
          {
            if i > 0 {
              assert extra[i] == extra[1..][i - 1];
            }
          }
        case Some(x) =>
          var i :| 0 <= i < |extra| - 1 && extra[1..][i] == Extra(audio, track, x);
          assert extra[i + 1] == Extra(audio, track, x);
      }
    }
  }

  /** No two tracks have the same stream. */
  lemma IndexInjective(extra: seq<Extra>, a1: bool, t1: byte, a2: bool, t2: byte)
    requires ExtraOk(extra) && IndexOf(extra, a1, t1).Some? && IndexOf(extra, a1, t1) == IndexOf(extra, a2, t2)
    ensures a1 == a2 && t1 == t2
  {
    FindSound(extra, a1, t1);
    FindSound(extra, a2, t2);
  }

  lemma AssignedKeeps(extra: seq<Extra>, audio: bool, track: byte)
    requires ExtraOk(extra)
    ensures var more := Assigned(extra, audio, track);
            && ExtraOk(more) && extra <= more
            && IndexOf(more, audio, track) == Some(if IndexOf(extra, audio, track).Some? then IndexOf(extra, audio, track).value else 2 + |extra|)
  {
    FindSound(extra, audio, track);
    if IndexOf(extra, audio, track).None? {
      FindLast(extra, Extra(audio, track, 2 + |extra|));
    }
  }

  lemma {:induction false} FindLast(extra: seq<Extra>, e: Extra)
    requires Find(extra, e.audio, e.track).None?
    ensures Find(extra + [e], e.audio, e.track) == Some(e.index)
  {
    if extra != [] {
      assert (extra + [e])[1..] == extra[1..] + [e];
      FindLast(extra[1..], e);
    }
  }

  /** A track keeps its stream when more tracks are met. */
  lemma {:induction false} FindStable(extra: seq<Extra>, more: seq<Extra>, audio: bool, track: byte)
    requires extra <= more && Find(extra, audio, track).Some?
    ensures Find(more, audio, track) == Find(extra, audio, track)
  {
    if !(extra[0].audio == audio && extra[0].track == track) {
      FindStable(extra[1..], more[1..], audio, track);
    }
  }

  // ---------------------------------------------------------------------- streams

  lemma {:induction false} InsertKeeps(streams: seq<Stream>, s: Stream)
    requires Sorted(streams) && !Has(streams, s.index)
    ensures Sorted(Insert(streams, s)) && |Insert(streams, s)| == |streams| + 1
    ensures forall x :: x in Insert(streams, s) <==> x == s || x in streams
  {
    if streams != [] && !(s.index < streams[0].index) {
      var more := streams[1..];
      assert streams == [streams[0]] + more;
      assert !Has(more, s.index) by {
        forall i | 0 <= i < |more|
          ensures more[i].index != s.index
        {
          assert more[i] == streams[i + 1];
        }
      }
      InsertKeeps(more, s);
      assert streams[0].index != s.index;
      forall x | x in Insert(more, s)
        ensures streams[0].index < x.index
      {
        if x != s {
          var i :| 0 <= i < |more| && more[i] == x;
          assert streams[i + 1] == x;
        }
      }
    }
  }

  /** What is known only grows: tracks keep their streams and streams their parameters. */
  ghost predicate Grows(a: Core, b: Core) {
    a.extra <= b.extra && (forall x :: x in a.streams ==> x in b.streams) && a.metadata <= b.metadata
  }

  lemma GrowsTrans(a: Core, b: Core, c: Core)
    requires Grows(a, b) && Grows(b, c)
    ensures Grows(a, c)
  {
  }

  /** A track that is placed has its stream in the table. */
  lemma PlacedKeeps(core: Core, track: byte, m: Media)
    requires CoreOk(core)
    ensures var b := Placed(core, track, m);
            && CoreOk(b) && Grows(core, b) && IndexOf(b.extra, m.AudioMedia?, track) == Some(StreamOf(core, track, m))
            && Has(b.streams, StreamOf(core, track, m))
  {
    hide Find, Insert;
    AssignedKeeps(core.extra, m.AudioMedia?, track);
    FindSound(core.extra, m.AudioMedia?, track);
    var s := Stream(StreamOf(core, track, m), m);
    if !Has(core.streams, s.index) {
      InsertKeeps(core.streams, s);
      assert s in Insert(core.streams, s);
    }
  }

  /** Every packet of a message is on the stream of its track, for good. */
  lemma {:induction false} PlacedAllKeeps(core: Core, ms: int, parts: Parts, nano: nat)
    requires CoreOk(core)
    ensures var b := PlacedAll(core, parts);
            && CoreOk(b) && Grows(core, b)
            && forall i :: 0 <= i < |parts| ==>
              var p := PacketsOf(core, ms, parts, nano)[i];
              && IndexOf(b.extra, parts[i].1.AudioMedia?, parts[i].0) == Some(p.stream) && Has(b.streams, p.stream)
              && p == MediaPacket(ms, parts[i].1, p.stream, nano)
    decreases |parts|
  {
    hide Placed, StreamOf, Find, CoreOk, MediaPacket, Has;
    if parts != [] {
      var a := Placed(core, parts[0].0, parts[0].1);
      var more := parts[1..];
      PlacedKeeps(core, parts[0].0, parts[0].1);
      PlacedAllKeeps(a, ms, more, nano);
      var b := PlacedAll(core, parts);
      GrowsTrans(core, a, b);
      var x := StreamOf(core, parts[0].0, parts[0].1);
      HasStable(a, b, x);
      IndexStable(a.extra, b.extra, parts[0].1.AudioMedia?, parts[0].0);
      PacketOn(ms, parts[0].1, x, nano);
      forall i | 0 < i < |parts|
        ensures parts[i] == more[i - 1] && PacketsOf(core, ms, parts, nano)[i] == PacketsOf(a, ms, more, nano)[i - 1]
      {
      }
    } else {
      assert core.extra <= core.extra;
    }
  }

  lemma PacketOn(ms: int, m: Media, stream: nat, nano: nat)
    ensures MediaPacket(ms, m, stream, nano).stream == stream
  {
  }

  lemma HasStable(a: Core, b: Core, index: nat)
    requires Grows(a, b) && Has(a.streams, index)
    ensures Has(b.streams, index)
  {
    var i :| 0 <= i < |a.streams| && a.streams[i].index == index;
    assert a.streams[i] in b.streams;
  }

  lemma IndexStable(extra: seq<Extra>, more: seq<Extra>, audio: bool, track: byte)
    requires extra <= more && IndexOf(extra, audio, track).Some?
    ensures IndexOf(more, audio, track) == IndexOf(extra, audio, track)
  {
    if track != 0 {
      FindStable(extra, more, audio, track);
    }
  }

  /** Every event keeps the order. */
  lemma AfterKeeps(core: Core, e: Event)
    requires CoreOk(core)
    ensures CoreOk(After(core, e)) && Grows(core, After(core, e))
  {
    hide Split, Unwrapped;
    if e.Frame? && Split(e.media).Some? {
      PlacedAllKeeps(Timed(core, e.time), 0, Split(e.media).value, 0);
    }
  }

  /** So over every run streams are unique and sorted, keep their index and parameters, and every
      track keeps the stream that is its alone. */
  lemma {:induction false} RunKeeps(core: Core, events: seq<Event>)
    requires CoreOk(core)
    ensures CoreOk(AtEnd(core, events)) && Grows(core, AtEnd(core, events))
    decreases |events|
  {
    hide CoreOk, After;
    if events != [] && !events[0].End? {
      AfterKeeps(core, events[0]);
      RunKeeps(After(core, events[0]), events[1..]);
      GrowsTrans(core, After(core, events[0]), AtEnd(core, events));
    } else {
      assert core.extra <= core.extra && core.metadata <= core.metadata;
    }
  }

  /** There are never more tracks than kinds and numbers allow, so indices stay small. */
  lemma FewTracks(extra: seq<Extra>)
    requires ExtraOk(extra)
    ensures |extra| <= 2 * 255
  {
    var codes := seq(|extra|, i requires 0 <= i < |extra| => (if extra[i].audio then 255 else 0) + extra[i].track - 1);
    Pigeonhole(codes, 2 * 255);
  }

  lemma {:induction false} Pigeonhole(s: seq<int>, n: nat)
    requires forall i :: 0 <= i < |s| ==> 0 <= s[i] < n
    requires forall i, j :: 0 <= i < j < |s| ==> s[i] != s[j]
    ensures |s| <= n
  {
    if s != [] {
      assert 0 <= s[0] < n;
      if n - 1 in s {
        var k :| 0 <= k < |s| && s[k] == n - 1;
        Pigeonhole(s[..k] + s[k + 1..], n - 1);
      } else {
        Pigeonhole(s, n - 1);
      }
    }
  }
}
