/** Packing and unpacking aggregate messages, loop by loop. */
module Aggregate {
  import opened Bytes
  import opened FlvFrame
  import opened AggregateModel
  import Chunk = ChunkModel

  method ParseAggregate(m: Message) returns (r: Option<seq<Message>>)
    ensures r == Parse(m)
    ensures r.Some? && r.value != [] ==> r.value[0].timestamp == m.timestamp
  {
    hide ParseFrame;
    if m.typeId != AGGREGATE {
      return None;
    }
    var body := m.payload;
    var pos := 0;
    var subs: seq<Message> := [];
    var offset: Option<int> := None;
    ghost var done: seq<(Header, seq<byte>)> := [];
    assert body[0..] == body;
    Prepended([], ParseFrames(body));
    while pos < |body|
      invariant 0 <= pos <= |body| && |subs| == |done|
      invariant ParseFrames(body) == Prepend(done, ParseFrames(body[pos..]))
      invariant done == [] ==> offset == None
      invariant done != [] ==> offset == Some(m.timestamp - done[0].0.time)
      invariant forall i :: 0 <= i < |subs| ==> subs[i] == Retimed(done[i], done[0].0.time, m)
      decreases |body| - pos
    {
      var f := ParseFrame(body[pos..]);
      if !f.Frame? {
        return None;
      }
      var off := if offset.Some? then offset.value else m.timestamp - f.header.time;
      offset := Some(off);
      subs := subs + [Chunk.Message(f.header.kind, m.streamId, (f.header.time + off) % U32_MOD, f.body)];
      RestFrames(body, pos);
      PrependMore(done, (f.header, f.body), ParseFrames(f.rest));
      done := done + [(f.header, f.body)];
      pos := pos + HEADER_SIZE + f.header.size + 4;
    }
    assert body[pos..] == [];
    Prepended(done, Some([]));
    assert ParseFrames(body) == Some(done);
    assert Parse(m).value == subs;
    r := Some(subs);
  }

  lemma RestFrames(body: seq<byte>, pos: nat)
    requires pos < |body| && ParseFrame(body[pos..]).Frame?
    ensures var f := ParseFrame(body[pos..]);
            pos + HEADER_SIZE + f.header.size + 4 <= |body| && f.rest == body[pos + HEADER_SIZE + f.header.size + 4..]
  {
    hide ParseHeader;
  }

  method BuildAggregate(streamId: u32, subs: seq<Message>) returns (r: Option<Message>)
    ensures r == Build(streamId, subs)
    ensures r.Some? ==> Parse(r.value) == Some(Moved(subs, streamId))
  {
    hide BuildFrame, ParseFrames, Parse;
    var body: seq<byte> := [];
    assert subs[..0] == [];
    for i := 0 to |subs|
      invariant body == BuildFrames(subs[..i]) && |body| < U32_MOD
      invariant forall j :: 0 <= j < i ==> |subs[j].payload| <= UI24_MAX
    {
      var sub := subs[i];
      assert subs[..i + 1][..i] == subs[..i];
      if |sub.payload| > UI24_MAX {
        return None;
      }
      if |body| + HEADER_SIZE + |sub.payload| + 4 >= U32_MOD {
        LongerStill(subs, i + 1);
        return None;
      }
      body := body + BuildFrame(sub.typeId, sub.timestamp, sub.payload);
    }
    assert subs[..|subs|] == subs;
    ParseInvertsBuild(streamId, subs);
    r := Some(Chunk.Message(AGGREGATE, streamId, FirstTime(subs), body));
  }

  lemma {:induction false} LongerStill(subs: seq<Message>, i: nat)
    requires i <= |subs|
    ensures |BuildFrames(subs[..i])| <= |BuildFrames(subs)|
    decreases |subs|
  {
    hide BuildFrame;
    if i < |subs| {
      var before := subs[..|subs| - 1];
      assert before[..i] == subs[..i];
      LongerStill(before, i);
    } else {
      assert subs[..i] == subs;
    }
  }
}
