/** The packets of the handshake: where a digest hides in one, how it is installed and found, and
    the response that chains from it. */
module HandshakeModel {
  import opened Bytes

  const PACKET_LEN := 1536
  const DIGEST_LEN := 32
  const BLOCK_LEN := 764
  const OFFSET_MOD := 728
  const RTMP_VERSION: byte := 3
  const CLIENT_VERSION: u32 := 0x8000_0702
  const SERVER_VERSION: u32 := 0x0D0E_0A0D

  type Packet = p: seq<byte> | |p| == PACKET_LEN witness seq(PACKET_LEN, _ => 0)
  type Digest = d: seq<byte> | |d| == DIGEST_LEN witness seq(DIGEST_LEN, _ => 0)

  /** A keyed digest of a message, and the keys of the two sides: a label for the first packet, the
      full key for the response. */
  datatype Crypto = Crypto(
    hmac: (seq<byte>, seq<byte>) -> Digest,
    clientLabel: seq<byte>, clientKey: seq<byte>, serverLabel: seq<byte>, serverKey: seq<byte>)

  /** "Genuine Adobe Flash Player 001", "Genuine Adobe Flash Media Server 001", and what both keys
      end with. */
  const CLIENT_LABEL: seq<byte> := [
    0x47, 0x65, 0x6E, 0x75, 0x69, 0x6E, 0x65, 0x20, 0x41, 0x64, 0x6F, 0x62, 0x65, 0x20, 0x46, 0x6C,
    0x61, 0x73, 0x68, 0x20, 0x50, 0x6C, 0x61, 0x79, 0x65, 0x72, 0x20, 0x30, 0x30, 0x31]

  const SERVER_LABEL: seq<byte> := [
    0x47, 0x65, 0x6E, 0x75, 0x69, 0x6E, 0x65, 0x20, 0x41, 0x64, 0x6F, 0x62, 0x65, 0x20, 0x46, 0x6C,
    0x61, 0x73, 0x68, 0x20, 0x4D, 0x65, 0x64, 0x69, 0x61, 0x20, 0x53, 0x65, 0x72, 0x76, 0x65, 0x72,
    0x20, 0x30, 0x30, 0x31]

  const KEY_SUFFIX: seq<byte> := [
    0xF0, 0xEE, 0xC2, 0x4A, 0x80, 0x68, 0xBE, 0xE8, 0x2E, 0x00, 0xD0, 0xD1, 0x02, 0x9E, 0x7E, 0x57,
    0x6E, 0xEC, 0x5D, 0x2D, 0x29, 0x80, 0x6F, 0xAB, 0x93, 0xB8, 0xE6, 0x36, 0xCF, 0xEB, 0x31, 0xAE]

  /** The published keys, under a keyed digest. */
  function Published(hmac: (seq<byte>, seq<byte>) -> Digest): Crypto {
    Crypto(hmac, CLIENT_LABEL, CLIENT_LABEL + KEY_SUFFIX, SERVER_LABEL, SERVER_LABEL + KEY_SUFFIX)
  }

  datatype Scheme = Schema0 | Schema1

  datatype Kind = Simple | Digested(scheme: Scheme, peerVerified: bool)

  // --------------------------------------------------------------- the first packet

  /** The digest block is the second or the first of the two. */
  function DigestBlock(scheme: Scheme): nat {
    if scheme == Schema0 then 8 + BLOCK_LEN else 8
  }

  /** Four octets at the start of the block say how far into it the digest stands. */
  function DigestOffset(p: Packet, scheme: Scheme): (pos: nat)
    ensures DigestBlock(scheme) + 4 <= pos && pos + DIGEST_LEN <= DigestBlock(scheme) + BLOCK_LEN
  {
    var b := DigestBlock(scheme);
    b + 4 + (p[b] + p[b + 1] + p[b + 2] + p[b + 3]) % OFFSET_MOD
  }

  /** The packet without its digest. */
  function DigestMessage(p: Packet, pos: nat): seq<byte>
    requires pos + DIGEST_LEN <= PACKET_LEN
  {
    p[..pos] + p[pos + DIGEST_LEN..]
  }

  function ExpectedDigest(p: Packet, scheme: Scheme, key: seq<byte>, k: Crypto): Digest {
    k.hmac(key, DigestMessage(p, DigestOffset(p, scheme)))
  }

  function InstallDigest(p: Packet, scheme: Scheme, key: seq<byte>, k: Crypto): Packet {
    var pos := DigestOffset(p, scheme);
    p[..pos] + ExpectedDigest(p, scheme, key, k) + p[pos + DIGEST_LEN..]
  }

  function VerifyDigest(p: Packet, scheme: Scheme, key: seq<byte>, k: Crypto): Option<Digest> {
    var pos := DigestOffset(p, scheme);
    var due := ExpectedDigest(p, scheme, key, k);
    if p[pos..pos + DIGEST_LEN] == due then Some(due) else None
  }

  function FindDigest(p: Packet, key: seq<byte>, k: Crypto): Option<(Scheme, Digest)> {
    match VerifyDigest(p, Schema0, key, k)
    case Some(d) => Some((Schema0, d))
    case None =>
      match VerifyDigest(p, Schema1, key, k)
      case Some(d) => Some((Schema1, d))
      case None => None
  }

  /** A first packet: time, version, filler. */
  function FirstPacket(filler: Packet, version: u32): Packet {
    filler[..4] + BE(4, version) + filler[8..]
  }

  function DigestPacket(filler: Packet, version: u32, scheme: Scheme, key: seq<byte>, k: Crypto): Packet {
    InstallDigest(FirstPacket(filler, version), scheme, key, k)
  }

  /** The digest a side puts into its first packet. */
  function OwnDigest(filler: Packet, version: u32, scheme: Scheme, key: seq<byte>, k: Crypto): Digest {
    ExpectedDigest(FirstPacket(filler, version), scheme, key, k)
  }

  // ----------------------------------------------------------------- the response

  const TAIL := PACKET_LEN - DIGEST_LEN

  function InstallResponse(p: Packet, peer: Digest, fullKey: seq<byte>, k: Crypto): Packet {
    p[..TAIL] + k.hmac(k.hmac(fullKey, peer), p[..TAIL])
  }

  predicate VerifyResponse(p: Packet, own: Digest, fullKey: seq<byte>, k: Crypto) {
    p[TAIL..] == k.hmac(k.hmac(fullKey, own), p[..TAIL])
  }

  // -------------------------------------------------------------------- the sides

  /** What a client brings: its fillers and, for the digest handshake, a scheme. */
  datatype Client = SimpleClient(c1: Packet) | DigestClient(scheme: Scheme, c1: Packet, c2: Packet)

  datatype Server = Server(plainS1: Packet, s1: Packet, s2: Packet)

  function C1(c: Client, k: Crypto): Packet {
    match c
    case SimpleClient(f) => FirstPacket(f, 0)
    case DigestClient(scheme, f, _) => DigestPacket(f, CLIENT_VERSION, scheme, k.clientLabel, k)
  }

  /** What the client finds in the server's first packet. */
  function ClientFinds(c: Client, s1: Packet, k: Crypto): Option<(Scheme, Digest)> {
    if c.SimpleClient? then None else FindDigest(s1, k.serverLabel, k)
  }

  /** The client's second packet: a response, or an echo. */
  function C2(c: Client, s1: Packet, k: Crypto): Packet {
    match ClientFinds(c, s1, k)
    case Some(found) => InstallResponse(c.c2, found.1, k.clientKey, k)
    case None => s1
  }

  function ClientKind(c: Client, s1: Packet, s2: Packet, k: Crypto): Kind {
    match ClientFinds(c, s1, k)
    case Some(found) =>
      Digested(found.0, VerifyResponse(s2, OwnDigest(c.c1, CLIENT_VERSION, c.scheme, k.clientLabel, k), k.serverKey, k))
    case None => Simple
  }

  /** What the server finds in the client's first packet: nothing if that has version zero. */
  function ServerFinds(c1: Packet, k: Crypto): Option<(Scheme, Digest)> {
    if UnBE(c1[4..8]) == 0 then None else FindDigest(c1, k.clientLabel, k)
  }

  function S1(s: Server, c1: Packet, k: Crypto): Packet {
    match ServerFinds(c1, k)
    case Some(found) => DigestPacket(s.s1, SERVER_VERSION, found.0, k.serverLabel, k)
    case None => FirstPacket(s.plainS1, 0)
  }

  function S2(s: Server, c1: Packet, k: Crypto): Packet {
    match ServerFinds(c1, k)
    case Some(found) => InstallResponse(s.s2, found.1, k.serverKey, k)
    case None => c1
  }

  function ServerKind(s: Server, c1: Packet, c2: Packet, k: Crypto): Kind {
    match ServerFinds(c1, k)
    case Some(found) =>
      Digested(found.0, VerifyResponse(c2, OwnDigest(s.s1, SERVER_VERSION, found.0, k.serverLabel, k), k.clientKey, k))
    case None => Simple
  }

  // --------------------------------------------------------------------- the laws

  /** Installing a digest changes nothing the digest or its place depends on: it can be found again. */
  lemma InstalledVerifies(p: Packet, scheme: Scheme, key: seq<byte>, k: Crypto)
    ensures var q := InstallDigest(p, scheme, key, k);
            && VerifyDigest(q, scheme, key, k) == Some(ExpectedDigest(p, scheme, key, k))
            && (forall i :: 0 <= i < PACKET_LEN && !(DigestOffset(p, scheme) <= i < DigestOffset(p, scheme) + DIGEST_LEN) ==> q[i] == p[i])
  {
    var pos := DigestOffset(p, scheme);
    var d := ExpectedDigest(p, scheme, key, k);
    var q := InstallDigest(p, scheme, key, k);
    var b := DigestBlock(scheme);
    assert q[b] == p[b] && q[b + 1] == p[b + 1] && q[b + 2] == p[b + 2] && q[b + 3] == p[b + 3];
    assert DigestOffset(q, scheme) == pos;
    assert q[..pos] == p[..pos] && q[pos + DIGEST_LEN..] == p[pos + DIGEST_LEN..];
    assert q[pos..pos + DIGEST_LEN] == d;
  }

  /** A packet meant for the second schema that happens to verify under the first. */
  predicate ByChance(p: Packet, scheme: Scheme, key: seq<byte>, k: Crypto) {
    scheme == Schema1 && VerifyDigest(p, Schema0, key, k).Some?
  }

  /** A digest is always found in a packet that carries one, and it is the one installed unless the
      other schema verifies by chance. */
  lemma InstalledFound(p: Packet, scheme: Scheme, key: seq<byte>, k: Crypto)
    ensures var q := InstallDigest(p, scheme, key, k);
            && FindDigest(q, key, k).Some?
            && (FindDigest(q, key, k).value.0 == scheme <==> !ByChance(q, scheme, key, k))
            && (!ByChance(q, scheme, key, k) ==> FindDigest(q, key, k).value.1 == ExpectedDigest(p, scheme, key, k))
  {
    hide InstallDigest, VerifyDigest, ExpectedDigest;
    InstalledVerifies(p, scheme, key, k);
  }

  lemma ResponseVerifies(p: Packet, peer: Digest, own: Digest, fullKey: seq<byte>, k: Crypto)
    ensures VerifyResponse(InstallResponse(p, peer, fullKey, k), own, fullKey, k) <==>
            k.hmac(k.hmac(fullKey, peer), p[..TAIL]) == k.hmac(k.hmac(fullKey, own), p[..TAIL])
  {
    SplitAt(p[..TAIL], k.hmac(k.hmac(fullKey, peer), p[..TAIL]));
  }

  lemma VersionKept(filler: Packet, version: u32, scheme: Scheme, key: seq<byte>, k: Crypto)
    ensures UnBE(FirstPacket(filler, version)[4..8]) == version
    ensures UnBE(DigestPacket(filler, version, scheme, key, k)[4..8]) == version
  {
    hide BE, UnBE, ExpectedDigest, DigestOffset;
    Widths();
    var p := FirstPacket(filler, version);
    assert p[4..8] == BE(4, version);
    UnBEInvertsBE(4, version);
    InstalledVerifies(p, scheme, key, k);
    assert InstallDigest(p, scheme, key, k)[4..8] == p[4..8];
  }

  /** A simple client is never taken for a digest client. */
  lemma SimpleIsSimple(c: Client, s: Server, k: Crypto, c2: Packet)
    requires c.SimpleClient?
    ensures ServerFinds(C1(c, k), k) == None && ServerKind(s, C1(c, k), c2, k) == Simple
    ensures forall s1: Packet, s2: Packet :: ClientKind(c, s1, s2, k) == Simple && C2(c, s1, k) == s1
  {
    hide InstallDigest, VerifyDigest, ExpectedDigest, FindDigest, InstallResponse, VerifyResponse, FirstPacket, BE, UnBE;
    assert C1(c, k) == FirstPacket(c.c1, 0);
    VersionKept(c.c1, 0, Schema0, [], k);
  }

  /** Two sides that meet settle on the same flavour, whatever the keyed digest is. Each verifies the
      other's response exactly when the other found the digest it had put in, or one whose response
      is the same. */
  lemma SidesAgree(c: Client, s: Server, k: Crypto)
    ensures var c1 := C1(c, k);
            var s1 := S1(s, c1, k);
            var ck := ClientKind(c, s1, S2(s, c1, k), k);
            var sk := ServerKind(s, c1, C2(c, s1, k), k);
            && ck.Simple? == sk.Simple? == c.SimpleClient?
            && (c.DigestClient? ==>
                  var sf := ServerFinds(c1, k);
                  var cf := ClientFinds(c, s1, k);
                  && sf.Some? && cf.Some?
                  && (sk.scheme == c.scheme <==> !ByChance(c1, c.scheme, k.clientLabel, k))
                  && (ck.scheme == sk.scheme <==> !ByChance(s1, sk.scheme, k.serverLabel, k))
                  && (ck.peerVerified <==> SameResponse(s.s2, sf.value.1, OwnDigest(c.c1, CLIENT_VERSION, c.scheme, k.clientLabel, k), k.serverKey, k))
                  && (sk.peerVerified <==> SameResponse(c.c2, cf.value.1, OwnDigest(s.s1, SERVER_VERSION, sk.scheme, k.serverLabel, k), k.clientKey, k))
                  && (!ByChance(c1, c.scheme, k.clientLabel, k) ==> ck.peerVerified)
                  && (!ByChance(s1, sk.scheme, k.serverLabel, k) ==> sk.peerVerified))
  {
    hide InstallDigest, VerifyDigest, ExpectedDigest, FindDigest, InstallResponse, VerifyResponse, FirstPacket, BE, UnBE, ByChance;
    var c1 := C1(c, k);
    match c {
      case SimpleClient(f) =>
        VersionKept(f, 0, Schema0, [], k);
      case DigestClient(scheme, f, c2) =>
        VersionKept(f, CLIENT_VERSION, scheme, k.clientLabel, k);
        InstalledFound(FirstPacket(f, CLIENT_VERSION), scheme, k.clientLabel, k);
        var found := ServerFinds(c1, k).value;
        InstalledFound(FirstPacket(s.s1, SERVER_VERSION), found.0, k.serverLabel, k);
        var cfound := ClientFinds(c, S1(s, c1, k), k).value;
        ResponseVerifies(s.s2, found.1, OwnDigest(f, CLIENT_VERSION, scheme, k.clientLabel, k), k.serverKey, k);
        ResponseVerifies(c2, cfound.1, OwnDigest(s.s1, SERVER_VERSION, found.0, k.serverLabel, k), k.clientKey, k);
    }
  }

  /** Responses that chain from `a` and from `b` cannot be told apart. */
  predicate SameResponse(p: Packet, a: Digest, b: Digest, fullKey: seq<byte>, k: Crypto) {
    k.hmac(k.hmac(fullKey, a), p[..TAIL]) == k.hmac(k.hmac(fullKey, b), p[..TAIL])
  }

  /** With the published keys: each side's label is the front of its key, and two sides that meet settle
      on the same flavour, each verifying the other unless the first schema verifies by chance. */
  lemma PublishedSidesAgree(c: Client, s: Server, hmac: (seq<byte>, seq<byte>) -> Digest)
    ensures var k := Published(hmac);
            && |k.clientLabel| == 30 && |k.clientKey| == 62 && k.clientKey[..30] == k.clientLabel
            && |k.serverLabel| == 36 && |k.serverKey| == 68 && k.serverKey[..36] == k.serverLabel
            && k.clientLabel != k.serverLabel && k.clientKey[30..] == k.serverKey[36..]
            && var c1 := C1(c, k);
               var s1 := S1(s, c1, k);
               var ck, sk := ClientKind(c, s1, S2(s, c1, k), k), ServerKind(s, c1, C2(c, s1, k), k);
               && ck.Simple? == sk.Simple? == c.SimpleClient?
               && (c.DigestClient? && !ByChance(c1, c.scheme, k.clientLabel, k) && !ByChance(s1, sk.scheme, k.serverLabel, k) ==>
                     ck == sk == Digested(c.scheme, true))
  {
    hide C1, C2, S1, S2, ClientKind, ServerKind, ByChance;
    SplitAt(CLIENT_LABEL, KEY_SUFFIX);
    SplitAt(SERVER_LABEL, KEY_SUFFIX);
    SidesAgree(c, s, Published(hmac));
  }

  /** Octets that are the characters of a text. */
  predicate Spells(octets: seq<byte>, text: string) {
    |octets| == |text| && forall i :: 0 <= i < |text| ==> octets[i] == text[i] as int
  }

  /** The labels are these texts. */
  lemma PublishedLabels()
    ensures Spells(CLIENT_LABEL, "Genuine Adobe Flash Player 001")
    ensures Spells(SERVER_LABEL, "Genuine Adobe Flash Media Server 001")
  {
  }
}
