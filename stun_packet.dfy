/** The `packet` object of `stun/packet.go` and its operations as imperative
    code: construction, `addAttribute`, `bytes`, the four address accessors,
    `newPacketFromBytes` and the retransmission loop `send`. Each is proved
    against the functions of modules StunMessage and StunExchange. */
module StunPacket {
  import opened StunWire
  import opened StunMessage
  import opened StunExchange

  class Packet {
    var types: u16
    var length: u16
    var transId: seq<byte>
    var attributes: seq<Attribute>

    /** The packet's fields as a value. */
    function Value(): Message
      reads this
    {
      Message(types, length, transId, attributes)
    }

    /** The body of `newPacket` once `crypto/rand.Read` has produced `nonce`. */
    constructor (nonce: Nonce)
      ensures Value() == FreshMessage(nonce)
    {
      types := 0;
      length := 0;
      transId := BE32(MagicCookie) + nonce;
      attributes := [];
    }

    /** `addAttribute`: append `a` and grow the 16-bit length field by its
        padded size, keeping the length invariant. */
    method AddAttribute(a: Attribute)
      modifies this
      ensures Value() == Appended(old(Value()), a)
      ensures attributes == old(attributes) + [a]
      ensures types == old(types) && transId == old(transId)
      ensures length == (old(length) + Align(a.length) + 4) % 0x1_0000
      ensures LengthInSync(old(Value())) ==> LengthInSync(Value())
    {
      ghost var before := Value();
      attributes := attributes + [a];
      length := (length + Align(a.length) + 4) % 0x1_0000;
      if LengthInSync(before) {
        AppendedKeepsLengthInSync(before, a);
      }
    }

    /** `bytes`: the header, the transaction id, then every attribute's type,
        length and value, in order and without padding. */
    method Bytes() returns (r: seq<byte>)
      ensures r == Serialize(Value())
      ensures |transId| == 16 ==> |r| == 20 + WireSize(attributes)
    {
      r := BE16(types) + BE16(length);
      r := r + transId;
      for i := 0 to |attributes|
        invariant r == BE16(types) + BE16(length) + transId + EncodeAttributes(attributes[..i])
      {
        var a := attributes[i];
        r := r + BE16(a.types);
        r := r + BE16(a.length);
        r := r + a.value;
        EncodeAttributesAppend(attributes[..i], a);
        assert attributes[..i + 1] == attributes[..i] + [a];
      }
      assert attributes[..|attributes|] == attributes;
      if |transId| == 16 {
        SerializeLayout(Value());
      }
    }

    /** `sourceAddr`: the decoding of the first SOURCE-ADDRESS attribute. */
    function SourceAddr<H>(address: Attribute -> Option<H>): (h: Option<H>)
      reads this
      ensures (forall j | 0 <= j < |attributes| :: attributes[j].types != AttributeSourceAddress) ==> h == None
      ensures forall i | 0 <= i < |attributes| && attributes[i].types == AttributeSourceAddress
                && (forall j | 0 <= j < i :: attributes[j].types != AttributeSourceAddress) :: h == address(attributes[i])
    {
      match FirstOfType(attributes, {AttributeSourceAddress})
      case None => None
      case Some(i) => address(attributes[i])
    }

    /** `mappedAddr`: the decoding of the first MAPPED-ADDRESS attribute. */
    function MappedAddr<H>(address: Attribute -> Option<H>): (h: Option<H>)
      reads this
      ensures (forall j | 0 <= j < |attributes| :: attributes[j].types != AttributeMappedAddress) ==> h == None
      ensures forall i | 0 <= i < |attributes| && attributes[i].types == AttributeMappedAddress
                && (forall j | 0 <= j < i :: attributes[j].types != AttributeMappedAddress) :: h == address(attributes[i])
    {
      match FirstOfType(attributes, {AttributeMappedAddress})
      case None => None
      case Some(i) => address(attributes[i])
    }

    /** `changeAddr`: the decoding of the first CHANGED-ADDRESS attribute. */
    function ChangeAddr<H>(address: Attribute -> Option<H>): (h: Option<H>)
      reads this
      ensures (forall j | 0 <= j < |attributes| :: attributes[j].types != AttributeChangedAddress) ==> h == None
      ensures forall i | 0 <= i < |attributes| && attributes[i].types == AttributeChangedAddress
                && (forall j | 0 <= j < i :: attributes[j].types != AttributeChangedAddress) :: h == address(attributes[i])
    {
      match FirstOfType(attributes, {AttributeChangedAddress})
      case None => None
      case Some(i) => address(attributes[i])
    }

    /** `xorMappedAddr`: the first attribute under either XOR-MAPPED-ADDRESS
        code, decoded against this packet's transaction id. */
    function XorMappedAddr<H>(xorAddress: (Attribute, seq<byte>) -> Option<H>): (h: Option<H>)
      reads this
      ensures (forall j | 0 <= j < |attributes| :: !IsXorMapped(attributes[j])) ==> h == None
      ensures forall i | 0 <= i < |attributes| && IsXorMapped(attributes[i])
                && (forall j | 0 <= j < i :: !IsXorMapped(attributes[j])) :: h == xorAddress(attributes[i], transId)
    {
      match FirstOfType(attributes, {AttributeXorMappedAddress, AttributeXorMappedAddressExp})
      case None => None
      case Some(i) => xorAddress(attributes[i], transId)
    }

    /** `send`: up to 9 writes of the request, each followed by a read
        deadline from the RFC 3489 schedule and a wait for the reply with
        this packet's transaction id. Returns the outcome, the deadlines
        armed and the number of writes. */
    method Send(conn: Transport) returns (outcome: Outcome, armed: seq<nat>, writes: nat)
      ensures Run(outcome, armed, writes) == StunExchange.Send(transId, Serialize(Value()), conn)
      ensures 1 <= writes <= MaxRequests
      ensures armed == Rfc3489Schedule[..|armed|]
      ensures outcome == NoReply ==> writes == MaxRequests && armed == Rfc3489Schedule
    {
      var wire := Bytes();
      var interval: nat := InitialInterval;
      armed, writes := [], 0;
      var i := 0;
      while i < MaxRequests
        invariant 0 <= i <= MaxRequests && writes == i
        invariant StunExchange.Send(transId, wire, conn) == Exchange(transId, wire, conn, i, interval, armed)
        decreases MaxRequests - i
      {
        var attempt := conn(i);
        writes := writes + 1;
        if attempt.write.WriteFailed? {
          outcome := Failed(attempt.write.err);
          SendFollowsSchedule(transId, wire, conn);
          return;
        }
        if attempt.write.count != |wire| {
          outcome := Failed(ShortWrite);
          SendFollowsSchedule(transId, wire, conn);
          return;
        }
        if attempt.deadline.DeadlineFailed? {
          outcome := Failed(attempt.deadline.err);
          SendFollowsSchedule(transId, wire, conn);
          return;
        }
        ghost var intervalBefore := interval;
        armed := armed + [interval];
        if interval < MaxInterval {
          interval := interval * 2;
        }
        var w := AwaitReply(attempt.events);
        match w {
          case Expired =>
          case Matched(from, reply) =>
            outcome := Reply(from, reply);
            SendFollowsSchedule(transId, wire, conn);
            return;
          case Broken(e) =>
            outcome := Failed(e);
            SendFollowsSchedule(transId, wire, conn);
            return;
          case Aborted(c) =>
            outcome := Crashed(c);
            SendFollowsSchedule(transId, wire, conn);
            return;
        }
        assert interval == NextInterval(intervalBefore);
        i := i + 1;
      }
      outcome := NoReply;
      SendFollowsSchedule(transId, wire, conn);
    }

    /** The inner read loop of `send`: read datagrams until the deadline
        passes, a read fails, or one parses to a packet with this packet's
        transaction id; packets with another id are skipped. */
    method AwaitReply(events: seq<ReadEvent>) returns (w: Wait)
      ensures w == Await(transId, events)
    {
      var j := 0;
      while j < |events|
        invariant 0 <= j <= |events|
        invariant Await(transId, events) == Await(transId, events[j..])
        decreases |events| - j
      {
        match events[j]
        case TimedOut =>
          return Expired;
        case ReadFailed(e) =>
          return Broken(e);
        case ForeignFailure(e) =>
          return Aborted(NotNetError(e));
        case Received(data, from, draw) =>
          var parsed := NewPacketFromBytes(data, draw);
          if parsed.Err? {
            return Aborted(UnparsedReply(parsed.error));
          }
          var pkt := parsed.value;
          if pkt.transId != transId {
            assert events[j..][1..] == events[j + 1..];
            j := j + 1;
            continue;
          }
          return Matched(from, pkt.Value());
      }
      return Expired;
    }
  }

  /** One of the two XOR-MAPPED-ADDRESS codes. */
  predicate IsXorMapped(a: Attribute)
  {
    a.types == AttributeXorMappedAddress || a.types == AttributeXorMappedAddressExp
  }

  /** `newPacket`: a fresh packet, or the error of the random source. */
  method NewPacket(draw: RandomDraw) returns (r: Result<Packet, IoError>)
    ensures draw.DrawFailed? ==> r == Err(draw.err)
    ensures draw.Drawn? ==> r.Ok? && fresh(r.value) && r.value.Value() == FreshMessage(draw.bytes)
  {
    if draw.DrawFailed? {
      return Err(draw.err);
    }
    var p := new Packet(draw.bytes);
    return Ok(p);
  }

  /** The outcome of the walk from the start once `walked` is known to
      precede the walk from the cursor. */
  function After(walked: seq<Attribute>, rest: Result<seq<Attribute>, ParseError>): Result<seq<Attribute>, ParseError>
  {
    match rest
    case Err(e) => Err(e)
    case Ok(attrs) => Ok(walked + attrs)
  }

  /** One more attribute moves from the walk still ahead into the prefix. */
  lemma AfterMoves(walked: seq<Attribute>, a: Attribute, tail: Result<seq<Attribute>, ParseError>)
    ensures After(walked, After([a], tail)) == After(walked + [a], tail)
  {
    if tail.Ok? {
      assert walked + ([a] + tail.value) == (walked + [a]) + tail.value;
    }
  }

  /** What the walk does at cursor `pos`, case by case, in the order the
      loop body tests them. */
  lemma WalkAt(b: seq<byte>, pos: nat)
    requires |b| <= MaxParsable && pos < |b|
    ensures pos + 4 > |b| ==> Walk(b, pos) == Err(OutOfRange)
    ensures pos + 4 <= |b| ==>
      var length := Uint16(b[pos + 2], b[pos + 3]);
      && ((pos + 4 + length) % 0x1_0000 > |b| ==> Walk(b, pos) == Err(FormatMismatch))
      && ((pos + 4 + length) % 0x1_0000 <= |b| && (pos + 4 + length) % 0x1_0000 < pos + 4 ==> Walk(b, pos) == Err(OutOfRange))
  {
  }

  /** An attribute that passes both tests of the loop ends inside the
      buffer: its end did not wrap around. */
  lemma PassedTestsFit(b: seq<byte>, pos: nat)
    requires |b| <= MaxParsable && pos + 4 <= |b|
    requires (pos + 4 + Uint16(b[pos + 2], b[pos + 3])) % 0x1_0000 <= |b|
    requires (pos + 4 + Uint16(b[pos + 2], b[pos + 3])) % 0x1_0000 >= pos + 4
    ensures pos + 4 + Uint16(b[pos + 2], b[pos + 3]) <= |b|
  {
    Below16(pos + 4 + Uint16(b[pos + 2], b[pos + 3]));
  }

  /** A loop turn over an attribute that fits adds the attribute `a` at
      `pos` to those laid out so far and moves the cursor to `next`, past
      its padded value, without wrapping. */
  lemma WalkTurn(b: seq<byte>, pos: nat, walked: seq<Attribute>, a: Attribute, next: nat)
    requires |b| <= MaxParsable && pos + 4 <= |b|
    requires pos + 4 + Uint16(b[pos + 2], b[pos + 3]) <= |b|
    requires a == NewAttribute(Uint16(b[pos], b[pos + 1]), b[pos + 4..pos + 4 + Uint16(b[pos + 2], b[pos + 3])])
    requires next == (pos + Align(a.length) + 4) % 0x1_0000
    requires LaidOutTo(b, 20, walked, pos)
    ensures next == pos + 4 + Align(a.length) && next <= |b| + 3
    ensures LaidOutTo(b, 20, walked + [a], next)
    ensures After(walked, Walk(b, pos)) == After(walked + [a], Walk(b, next))
  {
    var length := Uint16(b[pos + 2], b[pos + 3]);
    assert pos + 4 + Align(length) <= |b| + 3;
    Below16(pos + Align(length) + 4);
    assert AttributeAt(b, pos, a);
    assert (walked + [a])[..|walked|] == walked;
    WalkStep(b, pos);
    assert Walk(b, pos) == After([a], Walk(b, next));
    AfterMoves(walked, a, Walk(b, next));
  }

  /** Nothing walked yet: the walk from the start is the walk from the cursor. */
  lemma AfterNothing(rest: Result<seq<Attribute>, ParseError>)
    ensures After([], rest) == rest
  {
    if rest.Ok? {
      assert [] + rest.value == rest.value;
    }
  }

  /** The attribute loop of `newPacketFromBytes`: walk `b` from byte 20
      with a cursor and add each attribute to `p` with `AddAttribute`,
      stopping at the first bounds failure. `walked` are the attributes
      added, laid out from byte 20 up to the cursor `stop` at which the
      loop ends, and on a failure the walk fails at that cursor. */
  method AddWalkedAttributes(p: Packet, b: seq<byte>) returns (err: Option<ParseError>, ghost walked: seq<Attribute>, ghost stop: nat)
    requires 24 <= |b| <= MaxParsable
    modifies p
    ensures p.Value() == AppendAll(old(p.Value()), walked)
    ensures err.None? <==> Walk(b, 20).Ok?
    ensures err.None? ==> walked == Walk(b, 20).value
    ensures err.Some? ==> Walk(b, 20) == Err(err.value)
    ensures LaidOutTo(b, 20, walked, stop)
    ensures err.Some? ==> stop < |b| && Walk(b, stop) == Err(err.value)
  {
    ghost var base := p.Value();
    walked := [];
    AfterNothing(Walk(b, 20));
    var pos: nat := 20;
    while pos < |b|
      invariant 20 <= pos <= |b| + 3
      invariant LaidOutTo(b, 20, walked, pos)
      invariant p.Value() == AppendAll(base, walked)
      invariant Walk(b, 20) == After(walked, Walk(b, pos))
      decreases |b| + 3 - pos
    {
      WalkAt(b, pos);
      if pos + 4 > |b| {
        return Some(OutOfRange), walked, pos;
      }
      var types := Uint16(b[pos], b[pos + 1]);
      var length := Uint16(b[pos + 2], b[pos + 3]);
      if (pos + 4 + length) % 0x1_0000 > |b| {
        return Some(FormatMismatch), walked, pos;
      }
      if (pos + 4 + length) % 0x1_0000 < pos + 4 {
        return Some(OutOfRange), walked, pos;
      }
      PassedTestsFit(b, pos);
      var a := NewAttribute(types, b[pos + 4..pos + 4 + length]);
      var next := (pos + Align(length) + 4) % 0x1_0000;
      WalkTurn(b, pos, walked, a, next);
      p.AddAttribute(a);
      assert (walked + [a])[..|walked|] == walked;
      walked := walked + [a];
      pos := next;
    }
    assert walked + [] == walked;
    return None, walked, pos;
  }

  /** `newPacketFromBytes`: the packet `Parse` describes, built by reading
      the header and then walking the attributes with a cursor, adding each
      with `AddAttribute`. */
  method NewPacketFromBytes(b: seq<byte>, draw: RandomDraw) returns (r: Result<Packet, ParseError>)
    requires |b| <= MaxParsable
    ensures r.Ok? ==> fresh(r.value) && Parse(b, draw) == Ok(r.value.Value())
    ensures r.Err? ==> Parse(b, draw) == Err(r.error)
  {
    if |b| < 24 {
      return Err(TooShort);
    }
    var made := NewPacket(draw);
    if made.Err? {
      return Err(EntropyFailure(made.error));
    }
    var p := made.value;
    p.types := Uint16(b[0], b[1]);
    p.length := Uint16(b[2], b[3]);
    p.transId := b[4..20];
    assert p.Value() == Message(Uint16(b[0], b[1]), Uint16(b[2], b[3]), b[4..20], []);
    var err;
    ghost var walked, stop;
    err, walked, stop := AddWalkedAttributes(p, b);
    if err.Some? {
      return Err(err.value);
    }
    ParseIsHeaderThenAdds(b, draw, walked);
    return Ok(p);
  }
}
