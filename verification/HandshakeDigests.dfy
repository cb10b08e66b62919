/** What a digest covers, and where it stands. */
module HandshakeDigests {
  import opened Bytes
  import opened HandshakeModel

  /** Where the digest block of a packet begins. */
  lemma Blocks()
    ensures DigestBlock(Schema0) == 772 && DigestBlock(Schema1) == 8
    ensures PACKET_LEN == 1536 && DIGEST_LEN == 32 && OFFSET_MOD == 728
  {
  }

  /** Two packets agree on the octets that place the digest. */
  predicate SamePlace(p: Packet, q: Packet, scheme: Scheme) {
    var b := if scheme == Schema0 then 772 else 8;
    forall i :: b <= i < b + 4 ==> p[i] == q[i]
  }

  lemma PlaceDependsOn(p: Packet, q: Packet, scheme: Scheme)
    requires SamePlace(p, q, scheme)
    ensures DigestOffset(p, scheme) == DigestOffset(q, scheme)
  {
    Blocks();
    var b := DigestBlock(scheme);
    assert p[b] == q[b] && p[b + 1] == q[b + 1] && p[b + 2] == q[b + 2] && p[b + 3] == q[b + 3];
  }

  /** With four zero octets the digest follows them directly. */
  lemma PlaceAtZero(p: Packet, scheme: Scheme)
    requires var b := (if scheme == Schema0 then 772 else 8); p[b] == p[b + 1] == p[b + 2] == p[b + 3] == 0
    ensures DigestOffset(p, scheme) == if scheme == Schema0 then 776 else 12
  {
  }

  /** Each of the four octets, raised by one, moves the digest on by one, round the 728 places. */
  lemma PlaceMoves(p: Packet, scheme: Scheme, j: nat)
    requires j < 4 && p[(if scheme == Schema0 then 772 else 8) + j] < 255
    ensures var b := if scheme == Schema0 then 772 else 8;
            DigestOffset(p[b + j := p[b + j] + 1], scheme) - (b + 4) == (DigestOffset(p, scheme) - (b + 4) + 1) % 728
  {
    var b := if scheme == Schema0 then 772 else 8;
    var q: Packet := p[b + j := p[b + j] + 1];
    var x: int := (p[b] as int) + (p[b + 1] as int) + (p[b + 2] as int) + (p[b + 3] as int);
    var y: int := (q[b] as int) + (q[b + 1] as int) + (q[b + 2] as int) + (q[b + 3] as int);
    assert y == x + 1;
    Successor(x, 728);
  }

  lemma Successor(x: nat, m: nat)
    requires m > 1
    ensures (x + 1) % m == (x % m + 1) % m
  {
    var q, r := x / m, x % m;
    assert x == m * q + r;
    if r + 1 < m {
      ModUnique(x + 1, m, q, r + 1);
      ModUnique(r + 1, m, 0, r + 1);
    } else {
      assert m * (q + 1) == m * q + m;
      ModUnique(x + 1, m, q + 1, 0);
      ModUnique(r + 1, m, 1, 0);
    }
  }

  /** `m` is the packet without the 32 octets at `pos`. */
  predicate Excised(m: seq<byte>, p: Packet, pos: nat)
    requires pos + 32 <= 1536
  {
    && |m| == 1504
    && (forall i :: 0 <= i < pos ==> m[i] == p[i])
    && (forall i :: pos <= i < 1504 ==> m[i] == p[i + 32])
  }

  /** The keyed digest is taken of everything around the digest, on both sides. */
  lemma DigestCovers(p: Packet, scheme: Scheme, key: seq<byte>, k: Crypto, m: seq<byte>)
    requires Excised(m, p, DigestOffset(p, scheme))
    ensures ExpectedDigest(p, scheme, key, k) == k.hmac(key, m)
  {
    var pos := DigestOffset(p, scheme);
    var d := DigestMessage(p, pos);
    assert forall i :: pos <= i < 1504 ==> d[i] == p[i + 32];
    assert d == m;
  }

  /** Two packets have the same message at a place exactly when they agree everywhere else. */
  lemma MessageDetermines(p: Packet, q: Packet, pos: nat)
    requires pos + 32 <= 1536
    ensures |DigestMessage(p, pos)| == 1504
    ensures DigestMessage(p, pos) == DigestMessage(q, pos)
       <==> forall i :: 0 <= i < 1536 && !(pos <= i < pos + 32) ==> p[i] == q[i]
  {
    var d, e := DigestMessage(p, pos), DigestMessage(q, pos);
    assert Excised(d, p, pos) && Excised(e, q, pos);
    if d == e {
      forall i | 0 <= i < 1536 && !(pos <= i < pos + 32)
        ensures p[i] == q[i]
      {
        if i < pos {
          assert d[i] == e[i];
        } else {
          assert d[i - 32] == e[i - 32];
        }
      }
    }
    if forall i :: 0 <= i < 1536 && !(pos <= i < pos + 32) ==> p[i] == q[i] {
      forall i | 0 <= i < 1504
        ensures d[i] == e[i]
      {
        if i >= pos {
          assert p[i + 32] == q[i + 32];
        }
      }
    }
  }

  /** A packet that verifies and is altered in any octet but the digest and the four that place it
      verifies no more, unless the keyed digest takes two different messages to the same value. */
  lemma AlteredFails(p: Packet, scheme: Scheme, key: seq<byte>, k: Crypto, i: nat, b: byte)
    requires VerifyDigest(p, scheme, key, k).Some? && i < 1536 && b != p[i]
    requires var block := (if scheme == Schema0 then 772 else 8);
             var pos := DigestOffset(p, scheme);
             !(block <= i < block + 4) && !(pos <= i < pos + 32)
    ensures var q: Packet := p[i := b];
            var pos := DigestOffset(p, scheme);
            && DigestMessage(p, pos) != DigestMessage(q, pos)
            && (VerifyDigest(q, scheme, key, k).Some? <==> k.hmac(key, DigestMessage(p, pos)) == k.hmac(key, DigestMessage(q, pos)))
  {
    hide DigestMessage, DigestOffset;
    var q: Packet := p[i := b];
    var pos := DigestOffset(p, scheme);
    assert SamePlace(p, q, scheme);
    PlaceDependsOn(p, q, scheme);
    MessageDetermines(p, q, pos);
    assert q[i] != p[i];
    assert q[pos..pos + 32] == p[pos..pos + 32];
  }

  /** The first schema is tried first; nothing is found exactly when neither verifies. */
  lemma FindIff(p: Packet, key: seq<byte>, k: Crypto)
    ensures var (v0, v1) := (VerifyDigest(p, Schema0, key, k), VerifyDigest(p, Schema1, key, k));
            && (forall d :: FindDigest(p, key, k) == Some((Schema0, d)) <==> v0 == Some(d))
            && (forall d :: FindDigest(p, key, k) == Some((Schema1, d)) <==> v0.None? && v1 == Some(d))
            && (FindDigest(p, key, k).None? <==> v0.None? && v1.None?)
  {
    hide VerifyDigest;
  }

  /** The version takes octets 4 to 7; time and filler are kept. */
  lemma FirstPacketKeeps(filler: Packet, version: u32)
    ensures var p := FirstPacket(filler, version);
            && (forall i :: 0 <= i < 1536 && !(4 <= i < 8) ==> p[i] == filler[i])
            && p[4..8] == BE(4, version)
  {
    hide BE;
  }

  /** Where no digest is found either side falls back to the echo of what it received. */
  lemma FallsBackToEcho(c: Client, s: Server, k: Crypto, c1: Packet, s1: Packet, other: Packet)
    ensures ServerFinds(c1, k).None? ==> S2(s, c1, k) == c1 && ServerKind(s, c1, other, k) == Simple && S1(s, c1, k)[4..8] == BE(4, 0)
    ensures ClientFinds(c, s1, k).None? ==> C2(c, s1, k) == s1 && ClientKind(c, s1, other, k) == Simple
  {
    hide BE, FindDigest;
    FirstPacketKeeps(s.plainS1, 0);
  }

  /** A response leaves its filler alone and ends in what the keyed digest makes of it, under a key
      that chains from the peer's digest. */
  lemma ResponseShape(p: Packet, peer: Digest, fullKey: seq<byte>, k: Crypto)
    ensures var q := InstallResponse(p, peer, fullKey, k);
            q[..1504] == p[..1504] && q[1504..] == k.hmac(k.hmac(fullKey, peer), p[..1504])
  {
  }

  /** A digest client shows version 80 00 07 02, a digest server 0D 0E 0A 0D; the plain exchange zeros. */
  lemma VersionsShown(c: Client, s: Server, k: Crypto, c1: Packet)
    ensures C1(c, k)[4..8] == if c.SimpleClient? then [0, 0, 0, 0] else [0x80, 0x00, 0x07, 0x02]
    ensures S1(s, c1, k)[4..8] == if ServerFinds(c1, k).None? then [0, 0, 0, 0] else [0x0D, 0x0E, 0x0A, 0x0D]
  {
    hide BE, FindDigest, ExpectedDigest, InstallDigest, VerifyDigest, ServerFinds;
    UI32Is(0);
    UI32Is(0x8000_0702);
    UI32Is(0x0D0E_0A0D);
    if c.DigestClient? {
      InstalledVersion(c.c1, 0x8000_0702, c.scheme, k.clientLabel, k);
    } else {
      FirstPacketKeeps(c.c1, 0);
    }
    match ServerFinds(c1, k) {
      case Some(found) => InstalledVersion(s.s1, 0x0D0E_0A0D, found.0, k.serverLabel, k);
      case None => FirstPacketKeeps(s.plainS1, 0);
    }
  }

  lemma InstalledVersion(filler: Packet, version: u32, scheme: Scheme, key: seq<byte>, k: Crypto)
    ensures DigestPacket(filler, version, scheme, key, k)[4..8] == BE(4, version)
  {
    hide BE, ExpectedDigest, DigestOffset, VerifyDigest, FirstPacket;
    FirstPacketKeeps(filler, version);
    var p := FirstPacket(filler, version);
    InstalledVerifies(p, scheme, key, k);
    var q := DigestPacket(filler, version, scheme, key, k);
    assert q[4..8] == p[4..8];
  }
}
