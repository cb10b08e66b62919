/** The acknowledgement window: three 32-bit counters that wrap, against the true octet counts. */
module AckWindow {
  import opened Bytes

  /** The counters the chunk reader keeps. */
  datatype Counters = Counters(received: u32, window: u32, lastAck: u32)

  /** What they stand for: all octets received, and how many of them were received when the
      accounting was last rebased. */
  datatype Truth = Truth(total: nat, mark: nat)

  ghost predicate Tells(k: Counters, t: Truth) {
    t.mark <= t.total && k.received == t.total % U32_MOD && k.lastAck == t.mark % U32_MOD
  }

  datatype Event = Arrive(n: nat) | SetWindow(size: u32) | Poll

  function Counted(k: Counters, n: nat): Counters {
    k.(received := (k.received + n) % U32_MOD)
  }

  function Rebased(k: Counters, size: u32): Counters {
    Counters(k.received, size, k.received)
  }

  predicate AckDue(k: Counters) {
    k.window != 0 && WrapSub(k.received, k.lastAck) >= k.window
  }

  function Polled(k: Counters): Counters {
    if AckDue(k) then k.(lastAck := k.received) else k
  }

  function Next(k: Counters, e: Event): Counters {
    match e
    case Arrive(n) => Counted(k, n)
    case SetWindow(size) => Rebased(k, size)
    case Poll => Polled(k)
  }

  function TrueNext(k: Counters, t: Truth, e: Event): Truth {
    match e
    case Arrive(n) => Truth(t.total + n, t.mark)
    case SetWindow(_) => Truth(t.total, t.total)
    case Poll => if AckDue(k) then Truth(t.total, t.total) else t
  }

  /** An acknowledgement sent: the number reported, the window in force, and the true counts. */
  datatype Ack = Ack(reported: u32, window: u32, from: nat, upTo: nat)

  function Acks(k: Counters, t: Truth, events: seq<Event>): seq<Ack>
    decreases |events|
  {
    if events == [] then []
    else
      (if events[0].Poll? && AckDue(k) then [Ack(k.received, k.window, t.mark, t.total)] else [])
      + Acks(Next(k, events[0]), TrueNext(k, t, events[0]), events[1..])
  }

  function AfterAll(k: Counters, events: seq<Event>): Counters
    decreases |events|
  {
    if events == [] then k else AfterAll(Next(k, events[0]), events[1..])
  }

  function TruthAfterAll(k: Counters, t: Truth, events: seq<Event>): Truth
    decreases |events|
  {
    if events == [] then t else TruthAfterAll(Next(k, events[0]), TrueNext(k, t, events[0]), events[1..])
  }

  /** At every poll fewer than 2^32 octets have arrived since the mark. */
  predicate WithinOneWrap(k: Counters, t: Truth, events: seq<Event>)
    decreases |events|
  {
    events == [] ||
    (&& (events[0].Poll? ==> t.total - t.mark < U32_MOD)
     && WithinOneWrap(Next(k, events[0]), TrueNext(k, t, events[0]), events[1..]))
  }

  lemma WrapGap(a: nat, b: nat)
    requires b <= a
    ensures WrapSub(a % U32_MOD, b % U32_MOD) == (a - b) % U32_MOD
  {
    var qa, qb := a / U32_MOD, b / U32_MOD;
    assert a == qa * U32_MOD + a % U32_MOD && b == qb * U32_MOD + b % U32_MOD;
    var d := a % U32_MOD - b % U32_MOD;
    assert a - b == (qa - qb) * U32_MOD + d;
    ModShift(d, qa - qb);
  }

  lemma {:induction false} ModShift(d: int, k: int)
    ensures (d + k * U32_MOD) % U32_MOD == d % U32_MOD
    decreases if k < 0 then -k else k
  {
    if k > 0 {
      ModShift(d, k - 1);
      assert d + k * U32_MOD == (d + (k - 1) * U32_MOD) + U32_MOD;
    } else if k < 0 {
      ModShift(d, k + 1);
      assert d + k * U32_MOD == (d + (k + 1) * U32_MOD) - U32_MOD;
    }
  }

  function Turn(q: nat): nat {
    q * U32_MOD
  }

  /** The octets since the mark are fewer than a window past one or more full turns of the counter. */
  ghost predicate JustPastTurn(gap: nat, window: u32) {
    exists q :: q >= 1 && Turn(q) <= gap < Turn(q) + window
  }

  lemma JustPastTurnMeans(gap: nat, window: u32)
    ensures JustPastTurn(gap, window) <==> gap >= U32_MOD && gap % U32_MOD < window
  {
    if gap >= U32_MOD && gap % U32_MOD < window {
      var q := gap / U32_MOD;
      assert q >= 1 && Turn(q) == gap - gap % U32_MOD;
    }
    if q :| q >= 1 && Turn(q) <= gap < Turn(q) + window {
      ModUnique(gap, U32_MOD, q, gap - Turn(q));
    }
  }

  /** The decision is the true one exactly unless the octets since the last acknowledgement are just
      past a turn of the counter. */
  lemma DueIff(k: Counters, t: Truth)
    requires Tells(k, t) && k.window != 0
    ensures (AckDue(k) <==> t.total - t.mark >= k.window) <==> !JustPastTurn(t.total - t.mark, k.window)
  {
    WrapGap(t.total, t.mark);
    JustPastTurnMeans(t.total - t.mark, k.window);
  }

  /** Whatever the window, it is the true one exactly within one turn, and at the last octet of any. */
  lemma DueForAnyWindowIff(k: Counters, t: Truth)
    requires Tells(k, t)
    ensures (forall window: u32 | window != 0 :: AckDue(k.(window := window)) <==> t.total - t.mark >= window)
       <==> t.total - t.mark < U32_MOD || (t.total - t.mark) % U32_MOD == U32_MOD - 1
  {
    var gap := t.total - t.mark;
    WrapGap(t.total, t.mark);
    if gap >= U32_MOD && gap % U32_MOD != U32_MOD - 1 {
      var window: u32 := gap % U32_MOD + 1;
      assert !AckDue(k.(window := window)) && gap >= window;
    }
  }

  /** A full window can go unnoticed: 2^32 octets since the last acknowledgement look like none. */
  lemma MissedWrap()
    ensures var k := Counters(0, 1, 0);
            Tells(k, Truth(U32_MOD, 0)) && !AckDue(k) && JustPastTurn(U32_MOD, 1)
  {
    JustPastTurnMeans(U32_MOD, 1);
  }

  lemma TellsNext(k: Counters, t: Truth, e: Event)
    requires Tells(k, t)
    ensures Tells(Next(k, e), TrueNext(k, t, e))
  {
    if e.Arrive? {
      var a := t.total + e.n;
      assert a == (t.total % U32_MOD + e.n) + t.total / U32_MOD * U32_MOD;
      ModShift(t.total % U32_MOD + e.n, t.total / U32_MOD);
    }
  }

  predicate AckOk(a: Ack) {
    a.reported == a.upTo % U32_MOD && a.window > 0 && a.upTo - a.from >= a.window
  }

  /** Proper acknowledgements whose ranges follow one another between `low` and `high`. */
  predicate InOrder(acks: seq<Ack>, low: nat, high: nat)
    decreases |acks|
  {
    if acks == [] then low <= high
    else AckOk(acks[0]) && low <= acks[0].from && InOrder(acks[1..], acks[0].upTo, high)
  }

  lemma {:induction false} InOrderMeans(acks: seq<Ack>, low: nat, high: nat)
    requires InOrder(acks, low, high)
    ensures forall a <- acks :: AckOk(a) && low <= a.from && a.upTo <= high
    ensures forall i, j :: 0 <= i < j < |acks| ==> acks[i].upTo <= acks[j].from
    ensures low <= high
    decreases |acks|
  {
    hide AckOk;
    if acks != [] {
      var more := acks[1..];
      assert acks == [acks[0]] + more;
      InOrderMeans(more, acks[0].upTo, high);
      OkSpan(acks[0]);
      forall i, j | 0 <= i < j < |acks|
        ensures acks[i].upTo <= acks[j].from
      {
        assert acks[j] == more[j - 1] && more[j - 1] in more;
        if i > 0 {
          assert acks[i] == more[i - 1];
        }
      }
    }
  }

  lemma OkSpan(a: Ack)
    requires AckOk(a)
    ensures a.from < a.upTo
  {
  }

  lemma {:induction false} RunInOrder(k: Counters, t: Truth, events: seq<Event>)
    requires Tells(k, t)
    ensures InOrder(Acks(k, t, events), t.mark, TruthAfterAll(k, t, events).mark)
    ensures Tells(AfterAll(k, events), TruthAfterAll(k, t, events))
    decreases |events|
  {
    hide Next, TrueNext, Tells, AckDue;
    if events != [] {
      var e := events[0];
      var k1, t1 := Next(k, e), TrueNext(k, t, e);
      TellsNext(k, t, e);
      RunInOrder(k1, t1, events[1..]);
      var later, end := Acks(k1, t1, events[1..]), TruthAfterAll(k, t, events).mark;
      if e.Poll? && AckDue(k) {
        var a := Ack(k.received, k.window, t.mark, t.total);
        DueOk(k, t);
        PollMarks(k, t);
        assert ([a] + later)[0] == a && ([a] + later)[1..] == later;
      } else {
        assert Acks(k, t, events) == later;
        MarkGrows(k, t, e);
        LowerStart(later, t.mark, t1.mark, end);
      }
    }
  }

  /** What falls due covers a full window even past a turn of the counter. */
  lemma DueOk(k: Counters, t: Truth)
    requires Tells(k, t) && AckDue(k)
    ensures AckOk(Ack(k.received, k.window, t.mark, t.total))
  {
    WrapGap(t.total, t.mark);
  }

  lemma {:induction false} LowerStart(acks: seq<Ack>, low: nat, mid: nat, high: nat)
    requires low <= mid && InOrder(acks, mid, high)
    ensures InOrder(acks, low, high)
  {
  }

  /** Over any run of arrivals, window changes and polls, however many octets arrive: every
      acknowledgement reports the true count modulo 2^32 and covers at least one full window of octets
      not yet acknowledged; the ranges covered follow one another; and the counters never lose the
      true counts. */
  lemma AckRun(k: Counters, t: Truth, events: seq<Event>)
    requires Tells(k, t)
    ensures var acks := Acks(k, t, events);
            && (forall a <- acks :: AckOk(a) && t.mark <= a.from && a.upTo <= TruthAfterAll(k, t, events).mark)
            && (forall i, j :: 0 <= i < j < |acks| ==> acks[i].upTo <= acks[j].from)
    ensures Tells(AfterAll(k, events), TruthAfterAll(k, t, events))
  {
    hide Acks, AckOk, InOrder;
    RunInOrder(k, t, events);
    InOrderMeans(Acks(k, t, events), t.mark, TruthAfterAll(k, t, events).mark);
  }

  /** After the poll less than one window is unacknowledged. */
  predicate Settled(k: Counters, t: Truth) {
    k.window != 0 ==> var t1 := TrueNext(k, t, Poll); t1.total - t1.mark < k.window
  }

  /** At every poll of a run the decision is the true one, and every poll settles. */
  ghost predicate PollsRight(k: Counters, t: Truth, events: seq<Event>)
    decreases |events|
  {
    events == [] ||
    (&& (events[0].Poll? ==> Settled(k, t) && (AckDue(k) <==> k.window != 0 && t.total - t.mark >= k.window))
     && PollsRight(Next(k, events[0]), TrueNext(k, t, events[0]), events[1..]))
  }

  /** No poll finds the octets since the mark just past a turn of the counter. */
  ghost predicate NeverJustPast(k: Counters, t: Truth, events: seq<Event>)
    requires Tells(k, t)
    decreases |events|
  {
    events == [] ||
    (&& (events[0].Poll? && k.window != 0 ==> !JustPastTurn(t.total - t.mark, k.window))
     && (TellsNext(k, t, events[0]); NeverJustPast(Next(k, events[0]), TrueNext(k, t, events[0]), events[1..])))
  }

  lemma PollRightIff(k: Counters, t: Truth)
    requires Tells(k, t)
    ensures Settled(k, t) && (AckDue(k) <==> k.window != 0 && t.total - t.mark >= k.window)
       <==> (k.window != 0 ==> !JustPastTurn(t.total - t.mark, k.window))
  {
    hide JustPastTurn;
    if k.window != 0 {
      DueIff(k, t);
    }
  }

  /** Over any run every poll is right, and leaves less than a window unacknowledged, exactly when none
      finds the count just past a turn of the counter. */
  lemma {:induction false} PollsRightIff(k: Counters, t: Truth, events: seq<Event>)
    requires Tells(k, t)
    ensures PollsRight(k, t, events) <==> NeverJustPast(k, t, events)
    decreases |events|
  {
    hide Tells, Next, TrueNext, AckDue, Settled, JustPastTurn;
    if events != [] {
      TellsNext(k, t, events[0]);
      if events[0].Poll? {
        PollRightIff(k, t);
      }
      PollsRightIff(Next(k, events[0]), TrueNext(k, t, events[0]), events[1..]);
    }
  }

  lemma PollWithinOneWrap(k: Counters, t: Truth)
    requires Tells(k, t) && t.total - t.mark < U32_MOD
    ensures Settled(k, t) && (AckDue(k) <==> k.window != 0 && t.total - t.mark >= k.window)
  {
    JustPastTurnMeans(t.total - t.mark, k.window);
    PollRightIff(k, t);
  }

  /** In particular when fewer than 2^32 octets arrive between marks. */
  lemma {:induction false} WithinOneWrapIsRight(k: Counters, t: Truth, events: seq<Event>)
    requires Tells(k, t) && WithinOneWrap(k, t, events)
    ensures PollsRight(k, t, events)
    decreases |events|
  {
    hide Tells, Next, TrueNext, AckDue, Settled;
    if events != [] {
      TellsNext(k, t, events[0]);
      if events[0].Poll? {
        PollWithinOneWrap(k, t);
      }
      WithinOneWrapIsRight(Next(k, events[0]), TrueNext(k, t, events[0]), events[1..]);
    }
  }

  lemma PollMarks(k: Counters, t: Truth)
    requires AckDue(k)
    ensures TrueNext(k, t, Poll).mark == t.total
  {
  }

  lemma MarkGrows(k: Counters, t: Truth, e: Event)
    requires Tells(k, t)
    ensures t.mark <= TrueNext(k, t, e).mark
  {
  }

  /** A new window counts from where it was set, whatever went before: it falls due as soon as as many
      octets have arrived since, and zero turns it off. */
  lemma WindowCountsFromHere(k: Counters, size: u32, n: nat)
    requires n < U32_MOD
    ensures AckDue(Next(Next(k, SetWindow(size)), Arrive(n))) <==> size != 0 && n >= size
  {
    var a := k.received + n;
    assert WrapSub(a % U32_MOD, k.received) == n by {
      if a < U32_MOD {
        ModUnique(a, U32_MOD, 0, a);
      } else {
        ModUnique(a, U32_MOD, 1, a - U32_MOD);
      }
    }
  }

  /** After a poll, less than one window is left unacknowledged. */
  lemma PollSettles(k: Counters, t: Truth)
    requires Tells(k, t) && k.window != 0 && t.total - t.mark < U32_MOD
    ensures var t1 := TrueNext(k, t, Poll);
            t1.total - t1.mark < k.window && Next(k, Poll).window == k.window
  {
    WrapGap(t.total, t.mark);
  }
}
