/** Aggregate messages: several messages in one, put on the clock of the message that carries them. */
module AggregateModel {
  import opened Bytes
  import opened FlvFrame
  import Chunk = ChunkModel

  const AGGREGATE: byte := 22

  type Message = Chunk.Message

  /** The frames of the body, each with the time on the wire. */
  function ParseFrames(w: seq<byte>): Option<seq<(Header, seq<byte>)>>
    decreases |w|
  {
    if w == [] then Some([])
    else
      match ParseFrame(w)
      case Frame(h, body, rest) =>
        (match ParseFrames(rest)
         case None => None
         case Some(fs) => Some([(h, body)] + fs))
      case _ => None
  }

  /** Times are moved so that the first falls on the time of the aggregate. */
  function Retimed(f: (Header, seq<byte>), first: u32, m: Message): Message {
    Chunk.Message(f.0.kind, m.streamId, (f.0.time + (m.timestamp - first)) % U32_MOD, f.1)
  }

  function Parse(m: Message): Option<seq<Message>> {
    if m.typeId != AGGREGATE then None
    else
      match ParseFrames(m.payload)
      case None => None
      case Some(fs) => Some(seq(|fs|, i requires 0 <= i < |fs| => Retimed(fs[i], fs[0].0.time, m)))
  }

  function BuildFrames(subs: seq<Message>): seq<byte> {
    if subs == [] then []
    else BuildFrames(subs[..|subs| - 1]) + BuildFrame(subs[|subs| - 1].typeId, subs[|subs| - 1].timestamp, subs[|subs| - 1].payload)
  }

  /** Whether every part fits its size field and all of them a message. */
  predicate Buildable(subs: seq<Message>) {
    (forall i :: 0 <= i < |subs| ==> |subs[i].payload| <= UI24_MAX) && |BuildFrames(subs)| < U32_MOD
  }

  function FirstTime(subs: seq<Message>): u32 {
    if subs == [] then 0 else subs[0].timestamp
  }

  function Build(streamId: u32, subs: seq<Message>): Option<Message> {
    if Buildable(subs) then Some(Chunk.Message(AGGREGATE, streamId, FirstTime(subs), BuildFrames(subs))) else None
  }

  // --------------------------------------------------------------------- the laws

  /** The messages as an aggregate on `streamId` gives them back. */
  function Moved(subs: seq<Message>, streamId: u32): (r: seq<Message>)
    ensures |r| == |subs|
  {
    seq(|subs|, i requires 0 <= i < |subs| => subs[i].(streamId := streamId))
  }

  function Frames(subs: seq<Message>): (fs: seq<(Header, seq<byte>)>)
    requires forall i :: 0 <= i < |subs| ==> |subs[i].payload| <= UI24_MAX
    ensures |fs| == |subs|
  {
    seq(|subs|, i requires 0 <= i < |subs| => (Header(subs[i].typeId, |subs[i].payload|, subs[i].timestamp, 0), subs[i].payload))
  }

  lemma {:induction false} BuiltFrames(subs: seq<Message>)
    requires subs != []
    ensures BuildFrames(subs) == BuildFrame(subs[0].typeId, subs[0].timestamp, subs[0].payload) + BuildFrames(subs[1..])
    decreases |subs|
  {
    hide BuildFrame;
    var n := |subs| - 1;
    if n == 0 {
      assert subs[..0] == [] && subs[1..] == [];
    } else {
      BuiltFrames(subs[..n]);
      assert subs[..n][1..] == subs[1..][..n - 1];
      Assoc3(BuildFrame(subs[0].typeId, subs[0].timestamp, subs[0].payload), BuildFrames(subs[1..][..n - 1]),
             BuildFrame(subs[n].typeId, subs[n].timestamp, subs[n].payload));
    }
  }

  lemma {:induction false} FramesRead(subs: seq<Message>)
    requires forall i :: 0 <= i < |subs| ==> |subs[i].payload| <= UI24_MAX
    ensures ParseFrames(BuildFrames(subs)) == Some(Frames(subs))
    decreases |subs|
  {
    hide ParseFrame, BuildFrame;
    if subs != [] {
      BuiltFrames(subs);
      FrameRead(subs[0].typeId, subs[0].timestamp, subs[0].payload, BuildFrames(subs[1..]));
      FramesRead(subs[1..]);
      assert [Frames(subs)[0]] + Frames(subs[1..]) == Frames(subs);
    }
  }

  /** What is packed is unpacked: the same messages at the same times, on the aggregate's stream. */
  lemma ParseInvertsBuild(streamId: u32, subs: seq<Message>)
    requires Buildable(subs)
    ensures Parse(Build(streamId, subs).value) == Some(Moved(subs, streamId))
  {
    hide BuildFrames, ParseFrames;
    FramesRead(subs);
    var m := Build(streamId, subs).value;
    var got := Parse(m).value;
    forall i | 0 <= i < |subs|
      ensures got[i] == Moved(subs, streamId)[i]
    {
      assert Frames(subs)[i].0.time == subs[i].timestamp;
    }
    assert got == Moved(subs, streamId);
  }

  /** Whatever parses starts on the aggregate's time and keeps all gaps. */
  lemma KeepsGaps(m: Message)
    requires Parse(m).Some?
    ensures var subs, fs := Parse(m).value, ParseFrames(m.payload).value;
            && |subs| == |fs|
            && (subs != [] ==> subs[0].timestamp == m.timestamp)
            && forall i, j :: 0 <= i < |subs| && 0 <= j < |subs| ==> WrapSub(subs[j].timestamp, subs[i].timestamp) == WrapSub(fs[j].0.time, fs[i].0.time)
  {
    hide ParseFrames;
    var fs := ParseFrames(m.payload).value;
    forall i, j | 0 <= i < |fs| && 0 <= j < |fs|
      ensures WrapSub(Retimed(fs[j], fs[0].0.time, m).timestamp, Retimed(fs[i], fs[0].0.time, m).timestamp) == WrapSub(fs[j].0.time, fs[i].0.time)
    {
      ShiftCancels(fs[j].0.time, fs[i].0.time, m.timestamp - fs[0].0.time);
    }
  }

  lemma ShiftCancels(a: u32, b: u32, d: int)
    requires -U32_MOD < d < U32_MOD
    ensures WrapSub((a + d) % U32_MOD, (b + d) % U32_MOD) == WrapSub(a, b)
  {
  }

  /** Every frame that parses fits what it is built into, which is no longer. */
  lemma {:induction false} FramesFit(w: seq<byte>)
    requires ParseFrames(w).Some?
    ensures var fs := ParseFrames(w).value;
            && (forall i :: 0 <= i < |fs| ==> |fs[i].1| <= UI24_MAX)
            && forall subs: seq<Message> {:trigger BuildFrames(subs)} ::
              |subs| == |fs| && (forall i :: 0 <= i < |subs| ==> subs[i].payload == fs[i].1) ==> |BuildFrames(subs)| == |w|
    decreases |w|
  {
    hide ParseFrame, BuildFrame;
    if w != [] {
      var f := ParseFrame(w);
      FramesFit(f.rest);
      var fs := ParseFrames(w).value;
      assert fs[1..] == ParseFrames(f.rest).value;
      forall i | 0 < i < |fs|
        ensures |fs[i].1| <= UI24_MAX
      {
        assert fs[i] == fs[1..][i - 1];
      }
      forall subs: seq<Message> | |subs| == |fs| && forall i :: 0 <= i < |subs| ==> subs[i].payload == fs[i].1
        ensures |BuildFrames(subs)| == |w|
      {
        BuiltFrames(subs);
        assert forall i :: 0 <= i < |subs[1..]| ==> subs[1..][i].payload == fs[1..][i].1;
      }
    }
  }

  /** Rebuilding and parsing again changes nothing more. */
  lemma Stable(m: Message)
    requires Parse(m).Some? && |m.payload| < U32_MOD
    ensures var subs := Parse(m).value;
            && Build(m.streamId, subs).Some?
            && Parse(Build(m.streamId, subs).value) == Some(subs)
            && |Build(m.streamId, subs).value.payload| == |m.payload|
  {
    hide BuildFrames, ParseFrames;
    var subs := Parse(m).value;
    FramesFit(m.payload);
    ParseInvertsBuild(m.streamId, subs);
    assert Moved(subs, m.streamId) == subs;
  }

  /** A frame as any sender may write it. */
  datatype Foreign = Foreign(kind: byte, time: u32, streamId: u24, body: seq<byte>)

  function ForeignOctets(fs: seq<Foreign>): seq<byte>
    requires forall f <- fs :: |f.body| <= UI24_MAX
  {
    if fs == [] then []
    else HeaderWith(fs[0].kind, |fs[0].body|, fs[0].time, fs[0].streamId) + (fs[0].body + (UI32(HEADER_SIZE + |fs[0].body|) + ForeignOctets(fs[1..])))
  }

  lemma {:induction false} ForeignFrames(fs: seq<Foreign>)
    requires forall f <- fs :: |f.body| <= UI24_MAX
    ensures ParseFrames(ForeignOctets(fs)).Some? && |ParseFrames(ForeignOctets(fs)).value| == |fs|
    ensures forall i :: 0 <= i < |fs| ==>
              ParseFrames(ForeignOctets(fs)).value[i] == (Header(fs[i].kind, |fs[i].body|, fs[i].time, fs[i].streamId), fs[i].body)
  {
    hide ParseFrame, HeaderWith, UI32;
    if fs != [] {
      var more := fs[1..];
      assert fs[0] in fs && forall f <- more :: f in fs;
      FrameMeans(fs[0].kind, fs[0].time, fs[0].streamId, fs[0].body, HEADER_SIZE + |fs[0].body|, ForeignOctets(more));
      ForeignFrames(more);
      var got := ParseFrames(ForeignOctets(fs)).value;
      assert got[1..] == ParseFrames(ForeignOctets(more)).value;
      forall i | 0 < i < |fs|
        ensures got[i] == (Header(fs[i].kind, |fs[i].body|, fs[i].time, fs[i].streamId), fs[i].body)
      {
        assert got[i] == got[1..][i - 1] && fs[i] == more[i - 1];
      }
    }
  }

  /** Whoever packed it, an aggregate is its frames: each with its own kind and body, on the stream of
      the aggregate whatever its own, at its time moved by what brings the first to the aggregate's. */
  lemma UnpacksForeign(fs: seq<Foreign>, streamId: u32, time: u32)
    requires forall f <- fs :: |f.body| <= UI24_MAX
    ensures var r := Parse(Chunk.Message(22, streamId, time, ForeignOctets(fs)));
            && r.Some? && |r.value| == |fs|
            && forall i :: 0 <= i < |fs| ==>
              r.value[i] == Chunk.Message(fs[i].kind, streamId, (fs[i].time + time - fs[0].time) % 0x1_0000_0000, fs[i].body)
  {
    hide ParseFrames, ForeignOctets;
    ForeignFrames(fs);
  }

  /** Other messages, and aggregates with a wrong back pointer or cut short, are refused. */
  lemma Refuses(m: Message)
    ensures m.typeId != 22 ==> Parse(m) == None
    ensures m.payload != [] && !ParseFrame(m.payload).Frame? ==> Parse(m) == None
  {
    hide ParseFrame;
  }

  /** What is packed is of type 22, on the stream given, at the time of its first message. */
  lemma BuiltSays(streamId: u32, subs: seq<Message>)
    requires Build(streamId, subs).Some?
    ensures var m := Build(streamId, subs).value;
            m.typeId == 22 && m.streamId == streamId && m.timestamp == if subs == [] then 0 else subs[0].timestamp
  {
  }

  /** Anything can be packed whose parts are shorter than 2^24 octets and altogether, with fifteen octets
      each, than 2^32. */
  lemma BuildIff(streamId: u32, subs: seq<Message>)
    ensures Build(streamId, subs).Some? <==>
            (forall i :: 0 <= i < |subs| ==> |subs[i].payload| < 0x100_0000) && PackedSize(subs) < 0x1_0000_0000
  {
    hide BuildFrame;
    PackedLength(subs);
  }

  function PackedSize(subs: seq<Message>): nat {
    if subs == [] then 0 else PackedSize(subs[..|subs| - 1]) + 15 + |subs[|subs| - 1].payload|
  }

  lemma {:induction false} PackedLength(subs: seq<Message>)
    ensures |BuildFrames(subs)| == PackedSize(subs)
  {
    hide BuildHeader, BackPointer;
    if subs != [] {
      PackedLength(subs[..|subs| - 1]);
    }
  }
}
