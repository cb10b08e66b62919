/** The handshake as each side runs it: packets stamped in place, then reads and writes on a
    stream. */
module Handshake {
  import opened Bytes
  import opened HandshakeModel
  import opened HandshakeRuns

  /** One side's view of a connection: octets that will arrive, and those it has sent. */
  class Stream {
    var input: seq<byte>
    var output: seq<byte>

    constructor (arriving: seq<byte>)
      ensures input == arriving && output == []
    {
      input, output := arriving, [];
    }

    method WriteAll(b: seq<byte>)
      modifies this
      ensures output == old(output) + b && input == old(input)
    {
      output := output + b;
    }

    /** A stream that ends too early is drained. */
    method ReadExact(n: nat) returns (r: Option<seq<byte>>)
      modifies this
      ensures output == old(output)
      ensures match r
              case Some(b) => |b| == n && old(input) == b + input
              case None => |old(input)| < n && input == []
    {
      if |input| < n {
        input := [];
        return None;
      }
      r := Some(input[..n]);
      input := input[n..];
    }
  }

  datatype Outcome = Ok(kind: Kind) | BadVersion(version: byte) | Ended

  // --------------------------------------------------------------- packets in place

  /** Overwrites the octets from `at` on. */
  method CopyInto(a: array<byte>, at: nat, b: seq<byte>)
    requires at + |b| <= a.Length
    modifies a
    ensures a[..] == old(a[..])[..at] + b + old(a[..])[at + |b|..]
  {
    for i := 0 to |b|
      invariant a[..at] == old(a[..at]) && a[at + i..] == old(a[at + i..])
      invariant a[at..at + i] == b[..i]
    {
      a[at + i] := b[i];
    }
    assert a[..] == a[..at] + a[at..at + |b|] + a[at + |b|..];
  }

  method InstallDigestInPlace(packet: array<byte>, scheme: Scheme, key: seq<byte>, k: Crypto) returns (digest: Digest)
    requires packet.Length == PACKET_LEN
    modifies packet
    ensures packet[..] == InstallDigest(old(packet[..]), scheme, key, k)
    ensures digest == ExpectedDigest(old(packet[..]), scheme, key, k)
    ensures VerifyDigest(packet[..], scheme, key, k) == Some(digest)
  {
    hide ExpectedDigest, VerifyDigest;
    ghost var was: Packet := packet[..];
    var pos := DigestOffset(packet[..], scheme);
    digest := ExpectedDigest(packet[..], scheme, key, k);
    CopyInto(packet, pos, digest);
    InstalledVerifies(was, scheme, key, k);
  }

  method InstallResponseInPlace(packet: array<byte>, peer: Digest, fullKey: seq<byte>, k: Crypto)
    requires packet.Length == PACKET_LEN
    modifies packet
    ensures packet[..] == InstallResponse(old(packet[..]), peer, fullKey, k)
    ensures VerifyResponse(packet[..], peer, fullKey, k)
  {
    ghost var was: Packet := packet[..];
    var d := k.hmac(k.hmac(fullKey, peer), packet[..TAIL]);
    CopyInto(packet, TAIL, d);
    ResponseVerifies(was, peer, peer, fullKey, k);
    assert packet[..] == was[..TAIL] + d;
  }

  method Filled(filler: Packet) returns (packet: array<byte>)
    ensures fresh(packet) && packet[..] == filler
  {
    packet := new byte[PACKET_LEN](i requires 0 <= i < PACKET_LEN => filler[i]);
  }

  method BuildDigestPacket(filler: Packet, version: u32, scheme: Scheme, key: seq<byte>, k: Crypto)
    returns (packet: Packet, digest: Digest)
    ensures packet == DigestPacket(filler, version, scheme, key, k)
    ensures digest == OwnDigest(filler, version, scheme, key, k)
    ensures VerifyDigest(packet, scheme, key, k) == Some(digest)
    ensures UnBE(packet[4..8]) == version
  {
    hide InstallDigest, ExpectedDigest, VerifyDigest, BE, UnBE;
    var a := Filled(filler);
    CopyInto(a, 4, BE(4, version));
    assert a[..] == FirstPacket(filler, version);
    digest := InstallDigestInPlace(a, scheme, key, k);
    packet := a[..];
    VersionKept(filler, version, scheme, key, k);
  }

  method BuildResponse(filler: Packet, peer: Digest, fullKey: seq<byte>, k: Crypto) returns (packet: Packet)
    ensures packet == InstallResponse(filler, peer, fullKey, k)
  {
    hide InstallResponse, VerifyResponse;
    var a := Filled(filler);
    InstallResponseInPlace(a, peer, fullKey, k);
    packet := a[..];
  }

  // ------------------------------------------------------------------- the drivers

  /** All that was read off the stream. */
  ghost function Consumed(before: seq<byte>, after: seq<byte>): seq<byte>
    requires |after| <= |before|
  {
    before[..|before| - |after|]
  }

  /** A side stops where its program does: finished, at a wrong version, or waiting at the end. */
  ghost predicate StopsAt(act: Act, r: Outcome, left: seq<byte>) {
    match act
    case Done(kind) => r == Ok(kind)
    case Failed(v) => r == BadVersion(v)
    case Read(_) => r == Ended && left == []
    case Write(_) => false
  }

  method ClientHandshake(stream: Stream, filler: Packet, k: Crypto) returns (r: Outcome)
    modifies stream
    ensures |stream.input| <= |old(stream.input)|
    ensures var read := Consumed(old(stream.input), stream.input);
            var c := SimpleClient(filler);
            && stream.output == old(stream.output) + ([RTMP_VERSION] + C1(c, k))
                                + (if |read| >= HALF && read[0] == RTMP_VERSION then C2(c, read[1..HALF], k) else [])
            && StopsAt(ClientNext(c, k, read, |stream.output| - |old(stream.output)|), r, stream.input)
  {
    hide BE, FindDigest;
    var a := Filled(filler);
    CopyInto(a, 4, [0, 0, 0, 0]);
    assert BE(4, 0) == [0, 0, 0, 0] by { ZeroVersion(); }
    var c1: Packet := a[..];
    assert c1 == FirstPacket(filler, 0);
    stream.WriteAll([RTMP_VERSION] + c1);
    var s0 := stream.ReadExact(1);
    if s0.None? { return Ended; }
    if s0.value[0] != RTMP_VERSION { return BadVersion(s0.value[0]); }
    var s1 := stream.ReadExact(PACKET_LEN);
    if s1.None? { return Ended; }
    stream.WriteAll(s1.value);
    ghost var rest := stream.input;
    var s2 := stream.ReadExact(PACKET_LEN);
    ReadParts(old(stream.input), s0.value, s1.value, if s2.Some? then s2.value else rest, stream.input);
    if s2.None? { return Ended; }
    return Ok(Simple);
  }

  method ClientHandshakeDigest(stream: Stream, scheme: Scheme, filler1: Packet, filler2: Packet, k: Crypto) returns (r: Outcome)
    modifies stream
    ensures |stream.input| <= |old(stream.input)|
    ensures var read := Consumed(old(stream.input), stream.input);
            var c := DigestClient(scheme, filler1, filler2);
            && stream.output == old(stream.output) + ([RTMP_VERSION] + C1(c, k))
                                + (if |read| >= HALF && read[0] == RTMP_VERSION then C2(c, read[1..HALF], k) else [])
            && StopsAt(ClientNext(c, k, read, |stream.output| - |old(stream.output)|), r, stream.input)
  {
    hide BE, UnBE, FindDigest, VerifyDigest, InstallDigest, ExpectedDigest, InstallResponse, VerifyResponse;
    var c1, own := BuildDigestPacket(filler1, CLIENT_VERSION, scheme, k.clientLabel, k);
    stream.WriteAll([RTMP_VERSION] + c1);
    var s0 := stream.ReadExact(1);
    if s0.None? { return Ended; }
    if s0.value[0] != RTMP_VERSION { return BadVersion(s0.value[0]); }
    var s1 := stream.ReadExact(PACKET_LEN);
    if s1.None? { return Ended; }
    var found := FindDigest(s1.value, k.serverLabel, k);
    var c2 := s1.value;
    if found.Some? {
      c2 := BuildResponse(filler2, found.value.1, k.clientKey, k);
    }
    stream.WriteAll(c2);
    ghost var rest := stream.input;
    var s2 := stream.ReadExact(PACKET_LEN);
    ReadParts(old(stream.input), s0.value, s1.value, if s2.Some? then s2.value else rest, stream.input);
    if s2.None? { return Ended; }
    if found.Some? {
      return Ok(Digested(found.value.0, VerifyResponse(s2.value, own, k.serverKey, k)));
    }
    return Ok(Simple);
  }

  method ServerHandshakeNegotiated(stream: Stream, s: Server, k: Crypto) returns (r: Outcome)
    modifies stream
    ensures |stream.input| <= |old(stream.input)|
    ensures var read := Consumed(old(stream.input), stream.input);
            && stream.output == old(stream.output)
                                + (if |read| >= HALF && read[0] == RTMP_VERSION
                                   then [RTMP_VERSION] + S1(s, read[1..HALF], k) + S2(s, read[1..HALF], k) else [])
            && StopsAt(ServerNext(s, k, read, |stream.output| - |old(stream.output)|), r, stream.input)
  {
    hide BE, UnBE, FindDigest, VerifyDigest, InstallDigest, ExpectedDigest, InstallResponse, VerifyResponse;
    var c0 := stream.ReadExact(1);
    if c0.None? { return Ended; }
    if c0.value[0] != RTMP_VERSION { return BadVersion(c0.value[0]); }
    var c1 := stream.ReadExact(PACKET_LEN);
    if c1.None? { return Ended; }
    var found := if UnBE(c1.value[4..8]) == 0 then None else FindDigest(c1.value, k.clientLabel, k);
    if found.None? {
      var s1: Packet := FirstPacket(s.plainS1, 0);
      stream.WriteAll([RTMP_VERSION] + s1 + c1.value);
      ghost var rest := stream.input;
      var c2 := stream.ReadExact(PACKET_LEN);
      ReadParts(old(stream.input), c0.value, c1.value, if c2.Some? then c2.value else rest, stream.input);
      if c2.None? { return Ended; }
      return Ok(Simple);
    }
    var s1, own := BuildDigestPacket(s.s1, SERVER_VERSION, found.value.0, k.serverLabel, k);
    var s2 := BuildResponse(s.s2, found.value.1, k.serverKey, k);
    stream.WriteAll([RTMP_VERSION] + s1 + s2);
    ghost var rest := stream.input;
    var c2 := stream.ReadExact(PACKET_LEN);
    ReadParts(old(stream.input), c0.value, c1.value, if c2.Some? then c2.value else rest, stream.input);
    if c2.None? { return Ended; }
    return Ok(Digested(found.value.0, VerifyResponse(c2.value, own, k.clientKey, k)));
  }

  lemma ZeroVersion()
    ensures BE(4, 0) == [0, 0, 0, 0]
  {
  }

  /** What was read, part by part. */
  lemma ReadParts(before: seq<byte>, s0: seq<byte>, s1: seq<byte>, s2: seq<byte>, left: seq<byte>)
    requires |s0| == 1 && |s1| == PACKET_LEN && before == s0 + (s1 + (s2 + left))
    ensures var read := Consumed(before, left);
            && |read| == HALF + |s2| && read[0] == s0[0] && read[1..HALF] == s1
            && (|s2| == PACKET_LEN ==> read[HALF..WHOLE] == s2)
  {
    Assoc4(s0, s1, s2, left);
    SplitAt(s0 + s1 + s2, left);
    SplitAt(s0 + s1, s2);
    assert (s0 + s1)[1..] == s1;
    assert (s0 + s1 + s2)[1..HALF] == (s0 + s1 + s2)[..HALF][1..];
  }
}
