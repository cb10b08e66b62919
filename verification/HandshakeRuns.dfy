/** A client and a server shaking hands over two bounded octet channels, in every interleaving. */
module HandshakeRuns {
  import opened Bytes
  import opened HandshakeModel

  /** A version octet and one packet; and with the second packet. */
  const HALF := 1 + PACKET_LEN
  const WHOLE := HALF + PACKET_LEN

  /** What a side does next: send the rest of a buffer, wait for more octets, or stop. */
  datatype Act = Write(rest: seq<byte>) | Read(want: nat) | Done(kind: Kind) | Failed(version: byte)

  /** The client's program, as a function of all it has read and how much it has sent. */
  function ClientNext(c: Client, k: Crypto, read: seq<byte>, sent: nat): Act {
    if sent < HALF then Write(([RTMP_VERSION] + C1(c, k))[sent..])
    else if |read| < 1 then Read(1)
    else if read[0] != RTMP_VERSION then Failed(read[0])
    else if |read| < HALF then Read(HALF - |read|)
    else if sent < WHOLE then Write(C2(c, read[1..HALF], k)[sent - HALF..])
    else if |read| < WHOLE then Read(WHOLE - |read|)
    else Done(ClientKind(c, read[1..HALF], read[HALF..WHOLE], k))
  }

  function ServerNext(s: Server, k: Crypto, read: seq<byte>, sent: nat): Act {
    if |read| < 1 then Read(1)
    else if read[0] != RTMP_VERSION then Failed(read[0])
    else if |read| < HALF then Read(HALF - |read|)
    else if sent < WHOLE then
      var c1: Packet := read[1..HALF];
      Write(([RTMP_VERSION] + S1(s, c1, k) + S2(s, c1, k))[sent..])
    else if |read| < WHOLE then Read(WHOLE - |read|)
    else Done(ServerKind(s, read[1..HALF], read[HALF..WHOLE], k))
  }

  datatype Side = Side(read: seq<byte>, sent: nat)

  /** Both sides, and the octets under way to the server (`up`) and to the client (`down`). */
  datatype Sys = Sys(client: Side, server: Side, up: seq<byte>, down: seq<byte>)

  /** Who shakes hands, and how many octets each channel holds at most. */
  datatype World = World(c: Client, s: Server, k: Crypto, upCap: nat, downCap: nat)

  /** A side hands some octets to its channel, or takes some that have arrived. */
  datatype Move = ClientWrites(n: nat) | ClientReads(n: nat) | ServerWrites(n: nat) | ServerReads(n: nat)

  const START := Sys(Side([], 0), Side([], 0), [], [])

  function Apply(w: World, a: Sys, m: Move): Option<Sys> {
    if m.n == 0 then None
    else
      var ca, sa := ClientNext(w.c, w.k, a.client.read, a.client.sent), ServerNext(w.s, w.k, a.server.read, a.server.sent);
      match m
      case ClientWrites(n) =>
        if ca.Write? && n <= |ca.rest| && |a.up| + n <= w.upCap
        then Some(a.(client := Side(a.client.read, a.client.sent + n), up := a.up + ca.rest[..n])) else None
      case ServerWrites(n) =>
        if sa.Write? && n <= |sa.rest| && |a.down| + n <= w.downCap
        then Some(a.(server := Side(a.server.read, a.server.sent + n), down := a.down + sa.rest[..n])) else None
      case ClientReads(n) =>
        if ca.Read? && n <= ca.want && n <= |a.down|
        then Some(a.(client := Side(a.client.read + a.down[..n], a.client.sent), down := a.down[n..])) else None
      case ServerReads(n) =>
        if sa.Read? && n <= sa.want && n <= |a.up|
        then Some(a.(server := Side(a.server.read + a.up[..n], a.server.sent), up := a.up[n..])) else None
  }

  function Exec(w: World, a: Sys, moves: seq<Move>): Option<Sys>
    decreases |moves|
  {
    if moves == [] then Some(a)
    else
      match Apply(w, a, moves[0])
      case None => None
      case Some(b) => Exec(w, b, moves[1..])
  }

  ghost predicate Stuck(w: World, a: Sys) {
    forall m :: Apply(w, a, m).None?
  }

  /** Both sides have finished, with nothing left under way, and agree on the flavour. */
  predicate Finished(w: World, a: Sys) {
    var c1 := C1(w.c, w.k);
    var s1 := S1(w.s, c1, w.k);
    && a.up == [] && a.down == [] && |a.client.read| == a.client.sent == |a.server.read| == a.server.sent == WHOLE
    && ClientNext(w.c, w.k, a.client.read, a.client.sent) == Done(ClientKind(w.c, s1, S2(w.s, c1, w.k), w.k))
    && ServerNext(w.s, w.k, a.server.read, a.server.sent) == Done(ServerKind(w.s, c1, C2(w.c, s1, w.k), w.k))
  }

  // -------------------------------------------------------------------- invariant

  /** All that the client ever sends, and the server. */
  function Upward(w: World): (t: seq<byte>)
    ensures |t| == WHOLE
  {
    [RTMP_VERSION] + C1(w.c, w.k) + C2(w.c, S1(w.s, C1(w.c, w.k), w.k), w.k)
  }

  function Downward(w: World): (t: seq<byte>)
    ensures |t| == WHOLE
  {
    [RTMP_VERSION] + S1(w.s, C1(w.c, w.k), w.k) + S2(w.s, C1(w.c, w.k), w.k)
  }

  /** How far the sides are: each state of a run is determined by the four counts. */
  predicate Counts(cs: nat, cr: nat, ss: nat, sr: nat) {
    && sr <= cs <= WHOLE && cr <= ss <= WHOLE
    && (cs > HALF ==> cr >= HALF) && (cr > 0 ==> cs >= HALF) && (cr > HALF ==> cs == WHOLE)
    && (ss > 0 ==> sr >= HALF) && (sr > HALF ==> ss == WHOLE)
  }

  function At(w: World, cs: nat, cr: nat, ss: nat, sr: nat): Sys
    requires Counts(cs, cr, ss, sr)
  {
    Sys(Side(Downward(w)[..cr], cs), Side(Upward(w)[..sr], ss), Upward(w)[sr..cs], Downward(w)[cr..ss])
  }

  predicate Inv(w: World, a: Sys) {
    var cs, cr, ss, sr := a.client.sent, |a.client.read|, a.server.sent, |a.server.read|;
    && Counts(cs, cr, ss, sr) && a == At(w, cs, cr, ss, sr)
    && cs - sr <= w.upCap && ss - cr <= w.downCap
  }

  function Progress(a: Sys): nat {
    a.client.sent + |a.client.read| + a.server.sent + |a.server.read|
  }

  lemma Parts(v: byte, a: Packet, b: Packet, n: nat, m: nat)
    requires n <= WHOLE && m <= WHOLE
    ensures var t := [v] + a + b;
            && (n > 0 ==> t[..n][0] == v) && (n >= HALF ==> t[..n][1..HALF] == a) && (n == WHOLE ==> t[..n][HALF..WHOLE] == b)
            && (m < HALF ==> t[m..HALF] == ([v] + a)[m..]) && (m >= HALF ==> t[m..] == b[m - HALF..])
  {
    var t := [v] + a + b;
    SplitAt([v] + a, b);
    assert ([v] + a)[1..] == a;
    if n >= HALF {
      assert t[..n][..HALF] == [v] + a;
      assert t[..n][1..HALF] == t[..n][..HALF][1..];
    }
    if n == WHOLE {
      assert t[..n] == t;
    }
    if m < HALF {
      assert t[m..HALF] == t[..HALF][m..];
    } else {
      assert t[m..] == t[HALF..][m - HALF..];
    }
  }

  /** What the client does next is a matter of the counts alone. */
  lemma ClientAt(w: World, cs: nat, cr: nat, ss: nat, sr: nat)
    requires Counts(cs, cr, ss, sr)
    ensures ClientNext(w.c, w.k, Downward(w)[..cr], cs) ==
            if cs < HALF then Write(Upward(w)[cs..HALF])
            else if cr < 1 then Read(1)
            else if cr < HALF then Read(HALF - cr)
            else if cs < WHOLE then Write(Upward(w)[cs..])
            else if cr < WHOLE then Read(WHOLE - cr)
            else Done(ClientKind(w.c, S1(w.s, C1(w.c, w.k), w.k), S2(w.s, C1(w.c, w.k), w.k), w.k))
  {
    hide C1, C2, S1, S2, ClientKind;
    var c1 := C1(w.c, w.k);
    var s1, s2 := S1(w.s, c1, w.k), S2(w.s, c1, w.k);
    Parts(RTMP_VERSION, s1, s2, cr, 0);
    Parts(RTMP_VERSION, c1, C2(w.c, s1, w.k), 0, cs);
  }

  lemma ServerAt(w: World, cs: nat, cr: nat, ss: nat, sr: nat)
    requires Counts(cs, cr, ss, sr)
    ensures ServerNext(w.s, w.k, Upward(w)[..sr], ss) ==
            if sr < 1 then Read(1)
            else if sr < HALF then Read(HALF - sr)
            else if ss < WHOLE then Write(Downward(w)[ss..])
            else if sr < WHOLE then Read(WHOLE - sr)
            else Done(ServerKind(w.s, C1(w.c, w.k), C2(w.c, S1(w.s, C1(w.c, w.k), w.k), w.k), w.k))
  {
    hide C1, C2, S1, S2, ServerKind;
    var c1 := C1(w.c, w.k);
    Parts(RTMP_VERSION, c1, C2(w.c, S1(w.s, c1, w.k), w.k), sr, 0);
  }

  lemma StartOk(w: World)
    ensures Inv(w, START)
  {
  }

  lemma ClientWritesKeeps(w: World, a: Sys, n: nat)
    requires Inv(w, a) && Apply(w, a, ClientWrites(n)).Some?
    ensures Inv(w, Apply(w, a, ClientWrites(n)).value) && Progress(Apply(w, a, ClientWrites(n)).value) == Progress(a) + n && n > 0
  {
    hide ClientNext, ServerNext, Upward, Downward;
    var cs, cr, ss, sr := a.client.sent, |a.client.read|, a.server.sent, |a.server.read|;
    ClientAt(w, cs, cr, ss, sr);
    Sent(Upward(w), sr, cs, n);
  }

  lemma ServerWritesKeeps(w: World, a: Sys, n: nat)
    requires Inv(w, a) && Apply(w, a, ServerWrites(n)).Some?
    ensures Inv(w, Apply(w, a, ServerWrites(n)).value) && Progress(Apply(w, a, ServerWrites(n)).value) == Progress(a) + n && n > 0
  {
    hide ClientNext, ServerNext, Upward, Downward;
    var cs, cr, ss, sr := a.client.sent, |a.client.read|, a.server.sent, |a.server.read|;
    ServerAt(w, cs, cr, ss, sr);
    Sent(Downward(w), cr, ss, n);
  }

  lemma ClientReadsKeeps(w: World, a: Sys, n: nat)
    requires Inv(w, a) && Apply(w, a, ClientReads(n)).Some?
    ensures Inv(w, Apply(w, a, ClientReads(n)).value) && Progress(Apply(w, a, ClientReads(n)).value) == Progress(a) + n && n > 0
  {
    hide ClientNext, ServerNext, Upward, Downward;
    var cs, cr, ss, sr := a.client.sent, |a.client.read|, a.server.sent, |a.server.read|;
    ClientAt(w, cs, cr, ss, sr);
    Taken(Downward(w), cr, ss, n);
  }

  lemma ServerReadsKeeps(w: World, a: Sys, n: nat)
    requires Inv(w, a) && Apply(w, a, ServerReads(n)).Some?
    ensures Inv(w, Apply(w, a, ServerReads(n)).value) && Progress(Apply(w, a, ServerReads(n)).value) == Progress(a) + n && n > 0
  {
    hide ClientNext, ServerNext, Upward, Downward;
    var cs, cr, ss, sr := a.client.sent, |a.client.read|, a.server.sent, |a.server.read|;
    ServerAt(w, cs, cr, ss, sr);
    Taken(Upward(w), sr, cs, n);
  }

  /** Every move leads from one such state to the next. */
  lemma MoveKeeps(w: World, a: Sys, m: Move)
    requires Inv(w, a) && Apply(w, a, m).Some?
    ensures Inv(w, Apply(w, a, m).value) && Progress(Apply(w, a, m).value) == Progress(a) + m.n && m.n > 0
  {
    hide Apply, Inv, Progress;
    match m {
      case ClientWrites(n) => ClientWritesKeeps(w, a, n);
      case ServerWrites(n) => ServerWritesKeeps(w, a, n);
      case ClientReads(n) => ClientReadsKeeps(w, a, n);
      case ServerReads(n) => ServerReadsKeeps(w, a, n);
    }
  }

  lemma Sent(t: seq<byte>, a: nat, b: nat, n: nat)
    requires a <= b && b + n <= |t| == WHOLE
    ensures t[a..b] + t[b..][..n] == t[a..b + n]
    ensures b + n <= HALF ==> t[b..HALF][..n] == t[b..][..n]
  {
  }

  lemma Taken(t: seq<byte>, a: nat, b: nat, n: nat)
    requires a + n <= b <= |t|
    ensures t[..a] + t[a..b][..n] == t[..a + n] && t[a..b][n..] == t[a + n..b]
  {
  }

  lemma {:induction false} RunKeeps(w: World, a: Sys, moves: seq<Move>)
    requires Inv(w, a) && Exec(w, a, moves).Some?
    ensures Inv(w, Exec(w, a, moves).value) && Progress(Exec(w, a, moves).value) >= Progress(a) + |moves|
    decreases |moves|
  {
    hide Inv, Apply, Progress;
    if moves != [] {
      MoveKeeps(w, a, moves[0]);
      RunKeeps(w, Apply(w, a, moves[0]).value, moves[1..]);
    }
  }

  // --------------------------------------------------------------------- progress

  /** Some octet can always move on, when one direction can hold a packet. */
  lemma OctetMoves(w: World, a: Sys)
    requires Inv(w, a) && w.upCap > 0 && w.downCap > 0 && (w.upCap >= PACKET_LEN || w.downCap >= PACKET_LEN)
    requires a.client.sent < WHOLE || |a.client.read| < WHOLE || a.server.sent < WHOLE || |a.server.read| < WHOLE
    ensures !Stuck(w, a)
  {
    hide ClientNext, ServerNext, Upward, Downward;
    var cs, cr, ss, sr := a.client.sent, |a.client.read|, a.server.sent, |a.server.read|;
    ClientAt(w, cs, cr, ss, sr);
    ServerAt(w, cs, cr, ss, sr);
    if (cs < HALF || (cr >= HALF && cs < WHOLE)) && cs - sr < w.upCap {
      assert Apply(w, a, ClientWrites(1)).Some?;
    } else if sr >= HALF && ss < WHOLE && ss - cr < w.downCap {
      assert Apply(w, a, ServerWrites(1)).Some?;
    } else if cr < ss && !(cs < HALF) && (cr < HALF || cs == WHOLE) {
      assert Apply(w, a, ClientReads(1)).Some?;
    } else {
      assert Apply(w, a, ServerReads(1)).Some?;
    }
  }

  lemma AllMoved(w: World, a: Sys)
    requires Inv(w, a) && a.client.sent == |a.client.read| == a.server.sent == |a.server.read| == WHOLE
    ensures Finished(w, a) && Stuck(w, a)
  {
    hide ClientNext, ServerNext, Upward, Downward;
    ClientAt(w, WHOLE, WHOLE, WHOLE, WHOLE);
    ServerAt(w, WHOLE, WHOLE, WHOLE, WHOLE);
  }

  /** Every run is finite; and if one direction can hold a packet it can only stop with both sides
      finished, each having consumed exactly what the other sent, and agreeing on the flavour. */
  lemma EveryRunFinishes(w: World, moves: seq<Move>)
    requires Exec(w, START, moves).Some? && w.upCap > 0 && w.downCap > 0 && (w.upCap >= 1536 || w.downCap >= 1536)
    ensures var a := Exec(w, START, moves).value;
            && |moves| <= 4 * 3073 && (Stuck(w, a) <==> Finished(w, a))
            && (Finished(w, a) ==> |a.client.read| == a.client.sent == |a.server.read| == a.server.sent == 3073)
    ensures ClientKind(w.c, S1(w.s, C1(w.c, w.k), w.k), S2(w.s, C1(w.c, w.k), w.k), w.k).Simple? ==
            ServerKind(w.s, C1(w.c, w.k), C2(w.c, S1(w.s, C1(w.c, w.k), w.k), w.k), w.k).Simple? == w.c.SimpleClient?
  {
    hide ClientNext, ServerNext, Upward, Downward, Apply;
    var a := Exec(w, START, moves).value;
    StartOk(w);
    RunKeeps(w, START, moves);
    if a.client.sent == |a.client.read| == a.server.sent == |a.server.read| == WHOLE {
      AllMoved(w, a);
    } else {
      OctetMoves(w, a);
    }
    SidesAgree(w.c, w.s, w.k);
  }

  // --------------------------------------------------------------------- deadlock

  lemma {:induction false} ExecAppend(w: World, a: Sys, xs: seq<Move>, m: Move)
    requires Exec(w, a, xs).Some? && Apply(w, Exec(w, a, xs).value, m).Some?
    ensures Exec(w, a, xs + [m]) == Apply(w, Exec(w, a, xs).value, m)
    decreases |xs|
  {
    hide Apply;
    if xs == [] {
      assert ([] + [m])[1..] == [];
    } else {
      assert (xs + [m])[1..] == xs[1..] + [m];
      ExecAppend(w, Apply(w, a, xs[0]).value, xs[1..], m);
    }
  }

  ghost predicate Reached(w: World, a: Sys) {
    exists moves :: Exec(w, START, moves) == Some(a)
  }

  lemma ReachedStep(w: World, a: Sys, m: Move)
    requires Reached(w, a) && Apply(w, a, m).Some?
    ensures Reached(w, Apply(w, a, m).value)
  {
    hide Apply;
    var moves :| Exec(w, START, moves) == Some(a);
    ExecAppend(w, START, moves, m);
  }

  lemma ReachedInv(w: World, a: Sys)
    requires Reached(w, a)
    ensures Inv(w, a)
  {
    hide Inv, Apply;
    var moves :| Exec(w, START, moves) == Some(a);
    StartOk(w);
    RunKeeps(w, START, moves);
  }

  ghost predicate ReachedAt(w: World, cs: nat, cr: nat, ss: nat, sr: nat) {
    Counts(cs, cr, ss, sr) && Reached(w, At(w, cs, cr, ss, sr))
  }

  /** One move in terms of the counts. */
  lemma ReachAt(w: World, cs: nat, cr: nat, ss: nat, sr: nat, m: Move)
    requires ReachedAt(w, cs, cr, ss, sr) && Apply(w, At(w, cs, cr, ss, sr), m).Some?
    ensures match m
            case ClientWrites(n) => ReachedAt(w, cs + n, cr, ss, sr)
            case ClientReads(n) => ReachedAt(w, cs, cr + n, ss, sr)
            case ServerWrites(n) => ReachedAt(w, cs, cr, ss + n, sr)
            case ServerReads(n) => ReachedAt(w, cs, cr, ss, sr + n)
  {
    hide ClientNext, ServerNext, Upward, Downward;
    var a := At(w, cs, cr, ss, sr);
    ReachedInv(w, a);
    MoveKeeps(w, a, m);
    ReachedStep(w, a, m);
  }

  /** The first packets, octet by octet. */
  lemma {:induction false} HelloReached(w: World, n: nat)
    requires n <= HALF && w.upCap > 0
    ensures Reached(w, At(w, n, 0, 0, n))
  {
    hide ClientNext, ServerNext, Upward, Downward, Reached;
    if n == 0 {
      AtStart(w);
    } else {
      HelloReached(w, n - 1);
      ClientAt(w, n - 1, 0, 0, n - 1);
      ReachAt(w, n - 1, 0, 0, n - 1, ClientWrites(1));
      ServerAt(w, n, 0, 0, n - 1);
      ReachAt(w, n, 0, 0, n - 1, ServerReads(1));
    }
  }

  lemma AtStart(w: World)
    ensures Reached(w, At(w, 0, 0, 0, 0))
  {
    hide Apply, Upward, Downward;
    assert Exec(w, START, []) == Some(START) && START == At(w, 0, 0, 0, 0);
  }

  lemma {:induction false} ReplyReached(w: World, n: nat)
    requires n <= HALF && w.upCap > 0 && w.downCap > 0
    ensures Reached(w, At(w, HALF, n, n, HALF))
  {
    hide ClientNext, ServerNext, Upward, Downward, Reached;
    if n == 0 {
      HelloReached(w, HALF);
    } else {
      ReplyReached(w, n - 1);
      ServerAt(w, HALF, n - 1, n - 1, HALF);
      ReachAt(w, HALF, n - 1, n - 1, HALF, ServerWrites(1));
      ClientAt(w, HALF, n - 1, n, HALF);
      ReachAt(w, HALF, n - 1, n, HALF, ClientReads(1));
    }
  }

  /** Both sides write their second packet, and neither reads. */
  lemma BothWriting(w: World)
    requires 0 < w.upCap < PACKET_LEN && 0 < w.downCap < PACKET_LEN
    ensures var a := At(w, HALF + w.upCap, HALF, HALF + w.downCap, HALF);
            Reached(w, a) && Stuck(w, a) && !Finished(w, a)
  {
    hide ClientNext, ServerNext, Upward, Downward, Reached;
    ReplyReached(w, HALF);
    ClientAt(w, HALF, HALF, HALF, HALF);
    ReachAt(w, HALF, HALF, HALF, HALF, ClientWrites(w.upCap));
    var cs := HALF + w.upCap;
    ServerAt(w, cs, HALF, HALF, HALF);
    ReachAt(w, cs, HALF, HALF, HALF, ServerWrites(w.downCap));
    var ss := HALF + w.downCap;
    ClientAt(w, cs, HALF, ss, HALF);
    ServerAt(w, cs, HALF, ss, HALF);
  }

  /** The exchange can deadlock exactly when neither direction can hold a whole packet. */
  lemma DeadlockIff(w: World)
    requires w.upCap > 0 && w.downCap > 0
    ensures (exists a :: Reached(w, a) && Stuck(w, a) && !Finished(w, a)) <==> w.upCap < 1536 && w.downCap < 1536
  {
    hide Finished, At;
    if w.upCap < PACKET_LEN && w.downCap < PACKET_LEN {
      BothWriting(w);
    } else {
      forall a | Reached(w, a) && Stuck(w, a)
        ensures Finished(w, a)
      {
        var moves :| Exec(w, START, moves) == Some(a);
        EveryRunFinishes(w, moves);
      }
    }
  }

  /** Either side stops at once at a first octet other than 3, having sent no more than its first
      packet. */
  lemma VersionChecked(c: Client, s: Server, k: Crypto, read: seq<byte>)
    requires read != [] && read[0] != 3
    ensures ClientNext(c, k, read, 1537) == Failed(read[0]) && ServerNext(s, k, read, 0) == Failed(read[0])
  {
  }

  /** The first octet sent is 3, and a version octet and a packet are sent before anything is read by the
      client, and read before anything is sent by the server. */
  lemma FirstMoves(c: Client, s: Server, k: Crypto)
    ensures ClientNext(c, k, [], 0) == Write([3] + C1(c, k))
    ensures ServerNext(s, k, [], 0) == Read(1)
    ensures forall c1: Packet :: ServerNext(s, k, [3] + c1, 0) == Write([3] + S1(s, c1, k) + S2(s, c1, k))
  {
    hide C1, S1, S2;
    forall c1: Packet
      ensures ServerNext(s, k, [3] + c1, 0) == Write([3] + S1(s, c1, k) + S2(s, c1, k))
    {
      var read: seq<byte> := [3] + c1;
      assert read[1..1537] == c1;
      var out := [3] + S1(s, c1, k) + S2(s, c1, k);
      assert out[0..] == out;
    }
  }
}
