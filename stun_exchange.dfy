/** The retransmission logic of `send` in `stun/packet.go`, over a scripted
    transport: what each attempt's write, deadline and reads report is an
    input, and the run records the deadlines it armed. The method
    `StunPacket.Packet.Send` is proved to compute `Exchange`; the lemmas
    here relate `Exchange` to the schedule of RFC 3489 section 9.3. */
module StunExchange {
  import opened StunWire
  import opened StunMessage

  /** At most this many requests are sent (RFC 3489 section 9.3). */
  const MaxRequests: nat := 9
  /** The first retransmission interval, in milliseconds. */
  const InitialInterval: nat := 100
  /** The interval stops doubling once it reaches this value, in ms. */
  const MaxInterval: nat := 1600
  /** `send` reads each datagram into a buffer of this many bytes. */
  const ReadBufferSize: nat := 1024

  /** The read deadlines RFC 3489 section 9.3 prescribes for the 9 requests. */
  const Rfc3489Schedule: seq<nat> := [100, 200, 400, 800, 1600, 1600, 1600, 1600, 1600]

  /** A network address as the transport reports it. */
  type Addr = string

  /** What `ReadFrom` placed in the 1024-byte buffer. */
  type Datagram = s: seq<byte> | |s| <= ReadBufferSize

  /** `WriteTo` either reports a byte count or fails. */
  datatype WriteOutcome = Wrote(count: nat) | WriteFailed(err: IoError)

  /** `SetReadDeadline` either succeeds or fails. */
  datatype DeadlineOutcome = DeadlineSet | DeadlineFailed(err: IoError)

  /** One `ReadFrom` call: a datagram (with the random draw its parse makes),
      a `net.Error` whose `Timeout()` holds, another `net.Error`, or an
      error that is not a `net.Error` at all. */
  datatype ReadEvent =
    | Received(data: Datagram, from: Addr, draw: RandomDraw)
    | TimedOut
    | ReadFailed(err: IoError)
    | ForeignFailure(err: IoError)

  /** What the transport does during one attempt. Once the scripted reads
      are used up, the next read waits until the deadline passes. */
  datatype Attempt = Attempt(write: WriteOutcome, deadline: DeadlineOutcome, events: seq<ReadEvent>)

  /** The transport's behaviour on attempt 0, 1, 2, ... */
  type Transport = nat -> Attempt

  /** The Go runtime panics `send` can reach: dereferencing the nil packet
      of a failed parse, and the type assertion `err.(net.Error)`. */
  datatype Crash = UnparsedReply(cause: ParseError) | NotNetError(err: IoError)

  /** What `send` returns: an address and a packet, no reply at all
      (`nil, nil, nil`), an error, or a runtime panic. */
  datatype Outcome = Reply(from: Addr, reply: Message) | NoReply | Failed(err: IoError) | Crashed(crash: Crash)

  /** A finished exchange: its outcome, the deadlines it armed (in ms, in
      order) and how many times it called `WriteTo`. */
  datatype Run = Run(outcome: Outcome, deadlines: seq<nat>, writes: nat)

  /** The error `send` makes up for a short write. */
  const ShortWrite: IoError := IoError("Error in sending data.")

  /** The interval for the next attempt: doubled while below 1600 ms. */
  function NextInterval(t: nat): nat
  {
    if t < MaxInterval then t * 2 else t
  }

  /** The interval armed on attempt `i`, counting from 0. */
  function IntervalAt(i: nat): nat
  {
    if i == 0 then InitialInterval else NextInterval(IntervalAt(i - 1))
  }

  /** The doubling rule arms exactly the deadlines of RFC 3489 section 9.3. */
  lemma {:induction false} IntervalsFollowRfc3489(i: nat)
    requires i < MaxRequests
    ensures IntervalAt(i) == Rfc3489Schedule[i]
  {
    if i > 0 {
      IntervalsFollowRfc3489(i - 1);
    }
  }

  /** How the inner read loop of one attempt ends. */
  datatype Wait = Matched(from: Addr, reply: Message) | Expired | Broken(err: IoError) | Aborted(crash: Crash)

  /** The inner `for` loop: read until the deadline passes, a read fails,
      or a datagram carries the request's transaction id; packets with
      another id are skipped. */
  function Await(transId: seq<byte>, events: seq<ReadEvent>): Wait
    decreases |events|
  {
    if events == [] then Expired
    else
      match events[0]
      case TimedOut => Expired
      case ReadFailed(e) => Broken(e)
      case ForeignFailure(e) => Aborted(NotNetError(e))
      case Received(data, from, draw) =>
        match Parse(data, draw)
        case Err(e) => Aborted(UnparsedReply(e))
        case Ok(reply) =>
          if reply.transId == transId then Matched(from, reply) else Await(transId, events[1..])
  }

  /** The outer `for` loop from attempt `i`, with the interval to arm next
      and the deadlines armed so far. */
  function Exchange(transId: seq<byte>, wire: seq<byte>, conn: Transport, i: nat, interval: nat, armed: seq<nat>): Run
    decreases MaxRequests - i
  {
    if i >= MaxRequests then Run(NoReply, armed, i)
    else
      var attempt := conn(i);
      match attempt.write
      case WriteFailed(e) => Run(Failed(e), armed, i + 1)
      case Wrote(count) =>
        if count != |wire| then Run(Failed(ShortWrite), armed, i + 1)
        else
          match attempt.deadline
          case DeadlineFailed(e) => Run(Failed(e), armed, i + 1)
          case DeadlineSet =>
            var armed' := armed + [interval];
            match Await(transId, attempt.events)
            case Expired => Exchange(transId, wire, conn, i + 1, NextInterval(interval), armed')
            case Matched(from, reply) => Run(Reply(from, reply), armed', i + 1)
            case Broken(e) => Run(Failed(e), armed', i + 1)
            case Aborted(c) => Run(Crashed(c), armed', i + 1)
  }

  /** The whole of `send` for a request with this transaction id and image. */
  function Send(transId: seq<byte>, wire: seq<byte>, conn: Transport): Run
  {
    Exchange(transId, wire, conn, 0, InitialInterval, [])
  }

  /** Attempt `i` sends the whole request, arms its deadline and sees no
      matching reply before the deadline passes. */
  predicate AttemptExpires(transId: seq<byte>, wire: seq<byte>, conn: Transport, i: nat)
  {
    && conn(i).write == Wrote(|wire|)
    && conn(i).deadline == DeadlineSet
    && Await(transId, conn(i).events) == Expired
  }

  /** A timed-out attempt hands over to the next one, with its deadline
      recorded and the interval moved on. */
  lemma ExpiredStep(transId: seq<byte>, wire: seq<byte>, conn: Transport, i: nat, interval: nat, armed: seq<nat>)
    requires i < MaxRequests && AttemptExpires(transId, wire, conn, i)
    ensures Exchange(transId, wire, conn, i, interval, armed)
         == Exchange(transId, wire, conn, i + 1, NextInterval(interval), armed + [interval])
  {
  }

  /** Arming the interval of attempt `i` extends the armed prefix of the
      RFC 3489 schedule by one. */
  lemma ScheduleStep(i: nat)
    requires i < MaxRequests
    ensures |Rfc3489Schedule[..i]| == i && |Rfc3489Schedule[..i + 1]| == i + 1
    ensures Rfc3489Schedule[..i] + [IntervalAt(i)] == Rfc3489Schedule[..i + 1]
  {
    IntervalsFollowRfc3489(i);
    assert Rfc3489Schedule[..i + 1] == Rfc3489Schedule[..i] + [Rfc3489Schedule[i]];
  }

  /** An attempt that does not time out ends the exchange there: one more
      write, at most one more deadline, and an answer other than "no reply". */
  lemma FinalStep(transId: seq<byte>, wire: seq<byte>, conn: Transport, i: nat, interval: nat, armed: seq<nat>)
    requires i < MaxRequests && !AttemptExpires(transId, wire, conn, i)
    ensures var r := Exchange(transId, wire, conn, i, interval, armed);
      && r.writes == i + 1
      && (r.deadlines == armed || r.deadlines == armed + [interval])
      && !r.outcome.NoReply?
  {
  }

  /** From attempt `i` on, with the schedule followed so far: at most 9
      writes, the deadlines armed are a prefix of the RFC schedule, every
      write but possibly the last is followed by an armed deadline, and "no
      reply" happens only after all 9 deadlines have been armed. */
  lemma {:induction false} ExchangeFollowsSchedule(transId: seq<byte>, wire: seq<byte>, conn: Transport, i: nat)
    requires i <= MaxRequests
    ensures var r := Exchange(transId, wire, conn, i, IntervalAt(i), Rfc3489Schedule[..i]);
      && i <= |r.deadlines| <= r.writes <= MaxRequests
      && r.writes <= |r.deadlines| + 1
      && r.deadlines == Rfc3489Schedule[..|r.deadlines|]
      && (r.outcome.NoReply? ==> r.writes == MaxRequests && r.deadlines == Rfc3489Schedule)
    decreases MaxRequests - i
  {
    if i < MaxRequests {
      var armed := Rfc3489Schedule[..i];
      ScheduleStep(i);
      if AttemptExpires(transId, wire, conn, i) {
        ExpiredStep(transId, wire, conn, i, IntervalAt(i), armed);
        ExchangeFollowsSchedule(transId, wire, conn, i + 1);
      } else {
        FinalStep(transId, wire, conn, i, IntervalAt(i), armed);
      }
    }
  }

  lemma SendFollowsSchedule(transId: seq<byte>, wire: seq<byte>, conn: Transport)
    ensures var r := Send(transId, wire, conn);
      && 1 <= r.writes <= MaxRequests
      && |r.deadlines| <= r.writes <= |r.deadlines| + 1
      && r.deadlines == Rfc3489Schedule[..|r.deadlines|]
      && (r.outcome.NoReply? ==> r.writes == MaxRequests && r.deadlines == Rfc3489Schedule)
  {
    ExchangeFollowsSchedule(transId, wire, conn, 0);
    assert Rfc3489Schedule[..0] == [];
  }

  /** Attempts that time out lead on to the next attempt: after `k` of them
      the exchange is at attempt `k` with the first `k` deadlines armed. */
  lemma {:induction false} TimeoutsLeadOn(transId: seq<byte>, wire: seq<byte>, conn: Transport, k: nat)
    requires k <= MaxRequests
    requires forall i | 0 <= i < k :: AttemptExpires(transId, wire, conn, i)
    ensures Send(transId, wire, conn) == Exchange(transId, wire, conn, k, IntervalAt(k), Rfc3489Schedule[..k])
  {
    if k == 0 {
      assert Rfc3489Schedule[..0] == [];
    } else {
      TimeoutsLeadOn(transId, wire, conn, k - 1);
      assert AttemptExpires(transId, wire, conn, k - 1);
      ExpiredStep(transId, wire, conn, k - 1, IntervalAt(k - 1), Rfc3489Schedule[..k - 1]);
      ScheduleStep(k - 1);
    }
  }

  /** An exchange can only end with no reply by timing out on every
      remaining attempt. */
  lemma {:induction false} NoReplyMeansAllExpired(transId: seq<byte>, wire: seq<byte>, conn: Transport, i: nat, interval: nat, armed: seq<nat>)
    requires i <= MaxRequests
    ensures Exchange(transId, wire, conn, i, interval, armed).outcome == NoReply ==>
      forall j | i <= j < MaxRequests :: AttemptExpires(transId, wire, conn, j)
    decreases MaxRequests - i
  {
    if i < MaxRequests {
      if AttemptExpires(transId, wire, conn, i) {
        ExpiredStep(transId, wire, conn, i, interval, armed);
        NoReplyMeansAllExpired(transId, wire, conn, i + 1, NextInterval(interval), armed + [interval]);
      } else {
        FinalStep(transId, wire, conn, i, interval, armed);
      }
    }
  }

  /** Exhaustion, both directions: `send` ends with no reply and no error
      exactly when all 9 attempts time out, and then it has written 9 times
      and armed the whole schedule. */
  lemma NoReplyIffAllAttemptsExpire(transId: seq<byte>, wire: seq<byte>, conn: Transport)
    ensures Send(transId, wire, conn).outcome == NoReply
        <==> forall i | 0 <= i < MaxRequests :: AttemptExpires(transId, wire, conn, i)
    ensures Send(transId, wire, conn).outcome == NoReply ==>
      Send(transId, wire, conn).writes == MaxRequests && Send(transId, wire, conn).deadlines == Rfc3489Schedule
  {
    SendFollowsSchedule(transId, wire, conn);
    NoReplyMeansAllExpired(transId, wire, conn, 0, InitialInterval, []);
    if forall i | 0 <= i < MaxRequests :: AttemptExpires(transId, wire, conn, i) {
      TimeoutsLeadOn(transId, wire, conn, MaxRequests);
    }
  }

  /** What attempt `i` does, case by case, with the interval `interval`
      armed next and the deadlines `armed` so far. */
  lemma AttemptDecides(transId: seq<byte>, wire: seq<byte>, conn: Transport, i: nat, interval: nat, armed: seq<nat>)
    requires i < MaxRequests
    ensures var r, a := Exchange(transId, wire, conn, i, interval, armed), conn(i);
      var armed' := armed + [interval];
      && (a.write.WriteFailed? ==> r == Run(Failed(a.write.err), armed, i + 1))
      && (a.write.Wrote? && a.write.count != |wire| ==> r == Run(Failed(ShortWrite), armed, i + 1))
      && (a.write == Wrote(|wire|) && a.deadline.DeadlineFailed? ==> r == Run(Failed(a.deadline.err), armed, i + 1))
      && (a.write == Wrote(|wire|) && a.deadline.DeadlineSet? ==>
            match Await(transId, a.events)
            case Matched(from, reply) => r == Run(Reply(from, reply), armed', i + 1)
            case Broken(e) => r == Run(Failed(e), armed', i + 1)
            case Aborted(c) => r == Run(Crashed(c), armed', i + 1)
            case Expired => r == Exchange(transId, wire, conn, i + 1, NextInterval(interval), armed'))
  {
  }

  /** The first attempt that does not time out decides the exchange on the
      spot: a failed or short write, or a failed deadline, returns that
      error with no further write; a read error, a crash or a matching
      datagram ends it with that attempt's deadline armed; a timeout hands
      over to the next attempt with the first `k + 1` deadlines armed. */
  lemma FirstNonTimeoutDecides(transId: seq<byte>, wire: seq<byte>, conn: Transport, k: nat)
    requires k < MaxRequests
    requires forall i | 0 <= i < k :: AttemptExpires(transId, wire, conn, i)
    ensures var r, a := Send(transId, wire, conn), conn(k);
      var armed := Rfc3489Schedule[..k + 1];
      && (a.write.WriteFailed? ==> r == Run(Failed(a.write.err), Rfc3489Schedule[..k], k + 1))
      && (a.write.Wrote? && a.write.count != |wire| ==> r == Run(Failed(ShortWrite), Rfc3489Schedule[..k], k + 1))
      && (a.write == Wrote(|wire|) && a.deadline.DeadlineFailed? ==>
            r == Run(Failed(a.deadline.err), Rfc3489Schedule[..k], k + 1))
      && (a.write == Wrote(|wire|) && a.deadline.DeadlineSet? ==>
            match Await(transId, a.events)
            case Matched(from, reply) => r == Run(Reply(from, reply), armed, k + 1)
            case Broken(e) => r == Run(Failed(e), armed, k + 1)
            case Aborted(c) => r == Run(Crashed(c), armed, k + 1)
            case Expired => r == Exchange(transId, wire, conn, k + 1, IntervalAt(k + 1), armed))
  {
    TimeoutsLeadOn(transId, wire, conn, k);
    ScheduleStep(k);
    assert IntervalAt(k + 1) == NextInterval(IntervalAt(k));
    AttemptDecides(transId, wire, conn, k, IntervalAt(k), Rfc3489Schedule[..k]);
  }

  /** A datagram that parses to a packet with another transaction id. */
  predicate Unrelated(transId: seq<byte>, e: ReadEvent)
  {
    e.Received? && Parse(e.data, e.draw).Ok? && Parse(e.data, e.draw).value.transId != transId
  }

  lemma AwaitSkipsOne(transId: seq<byte>, events: seq<ReadEvent>)
    requires events != [] && Unrelated(transId, events[0])
    ensures Await(transId, events) == Await(transId, events[1..])
  {
  }

  /** Unrelated traffic is skipped: datagrams that parse but carry another
      transaction id leave the wait exactly where it was, without ending it
      (and so without a new write or a new deadline). */
  lemma {:induction false} UnrelatedDatagramsSkipped(transId: seq<byte>, unrelated: seq<ReadEvent>, rest: seq<ReadEvent>)
    requires forall j | 0 <= j < |unrelated| :: Unrelated(transId, unrelated[j])
    ensures Await(transId, unrelated + rest) == Await(transId, rest)
    decreases |unrelated|
  {
    if unrelated != [] {
      var all := unrelated + rest;
      assert all[0] == unrelated[0];
      assert all[1..] == unrelated[1..] + rest;
      AwaitSkipsOne(transId, all);
      UnrelatedDatagramsSkipped(transId, unrelated[1..], rest);
    } else {
      assert unrelated + rest == rest;
    }
  }

  /** A matching reply ends the exchange at once, even on the first
      attempt: one write and one deadline of 100 ms. */
  lemma ReplyOnFirstAttempt(transId: seq<byte>, wire: seq<byte>, conn: Transport, data: Datagram, from: Addr, draw: RandomDraw)
    requires conn(0).write == Wrote(|wire|) && conn(0).deadline == DeadlineSet
    requires |conn(0).events| > 0 && conn(0).events[0] == Received(data, from, draw)
    requires Parse(data, draw).Ok? && Parse(data, draw).value.transId == transId
    ensures Send(transId, wire, conn) == Run(Reply(from, Parse(data, draw).value), [InitialInterval], 1)
  {
  }
}
