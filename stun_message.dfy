/** The value side of `stun/packet.go`: a STUN message as a datatype, the
    length bookkeeping of `addAttribute`, the wire image that `bytes` emits,
    the attribute walk of `newPacketFromBytes`, and the first-match scan the
    address accessors share. The class in module StunPacket is proved
    against these functions. */
module StunMessage {
  import opened StunWire

  /** The four fields of the Go `packet` struct. */
  datatype Message = Message(types: u16, length: u16, transId: seq<byte>, attributes: seq<Attribute>)

  // ---------------------------------------------------------------------
  // Length bookkeeping (newPacket, addAttribute)
  // ---------------------------------------------------------------------

  /** What one attribute adds to the `length` field: its 4 header bytes and
      its value padded to a multiple of 4. */
  function Footprint(a: Attribute): nat
  {
    4 + Align(a.length)
  }

  /** The size of an attribute section laid out as RFC 5389 section 15 asks. */
  function SectionSize(attrs: seq<Attribute>): nat
  {
    if attrs == [] then 0 else Footprint(attrs[0]) + SectionSize(attrs[1..])
  }

  lemma {:induction false} SectionSizeAppend(attrs: seq<Attribute>, a: Attribute)
    ensures SectionSize(attrs + [a]) == SectionSize(attrs) + Footprint(a)
  {
    if attrs == [] {
      assert attrs + [a] == [a];
    } else {
      assert (attrs + [a])[1..] == attrs[1..] + [a];
      SectionSizeAppend(attrs[1..], a);
    }
  }

  /** The invariant `addAttribute` exists to keep: the 16-bit `length` field
      is the size of the attribute section, modulo 2^16. */
  predicate LengthInSync(m: Message)
  {
    m.length == SectionSize(m.attributes) % 0x1_0000
  }

  /** `newPacket` once its 12 random bytes are drawn: the cookie in big-endian
      order, then the nonce; no attributes; zero length. */
  function FreshMessage(nonce: Nonce): (m: Message)
    ensures |m.transId| == 16 && Uint32(m.transId[..4]) == MagicCookie && m.transId[4..] == nonce
    ensures m.attributes == [] && m.length == 0 && m.types == 0
    ensures LengthInSync(m)
  {
    Uint32OfBE32(MagicCookie);
    Message(0, 0, BE32(MagicCookie) + nonce, [])
  }

  /** `addAttribute`: append at the end; the `uint16` field wraps. */
  function Appended(m: Message, a: Attribute): Message
  {
    m.(attributes := m.attributes + [a], length := (m.length + Align(a.length) + 4) % 0x1_0000)
  }

  /** `addAttribute` keeps the length field in step with the attributes. */
  lemma AppendedKeepsLengthInSync(m: Message, a: Attribute)
    requires LengthInSync(m)
    ensures LengthInSync(Appended(m, a))
    ensures Appended(m, a).attributes[..|m.attributes|] == m.attributes
    ensures Appended(m, a).attributes[|m.attributes|] == a
    ensures Appended(m, a).types == m.types && Appended(m, a).transId == m.transId
  {
    SectionSizeAppend(m.attributes, a);
    ModAddLeft(SectionSize(m.attributes), Align(a.length) + 4);
    assert (m.attributes + [a])[..|m.attributes|] == m.attributes;
  }

  /** Reducing a partial sum modulo 2^16 first does not change the total. */
  lemma ModAddLeft(x: nat, y: nat)
    ensures (x % 0x1_0000 + y) % 0x1_0000 == (x + y) % 0x1_0000
  {
    var q, r := x / 0x1_0000, x % 0x1_0000;
    assert x == q * 0x1_0000 + r;
    ModShift(q, r + y);
  }

  lemma {:induction false} ModShift(q: nat, z: nat)
    ensures (q * 0x1_0000 + z) % 0x1_0000 == z % 0x1_0000
  {
    if q > 0 {
      ModShift(q - 1, z);
      assert q * 0x1_0000 + z == ((q - 1) * 0x1_0000 + z) + 0x1_0000;
    }
  }

  /** `addAttribute` applied to each of `attrs` in order. */
  function AppendAll(m: Message, attrs: seq<Attribute>): Message
  {
    if attrs == [] then m else Appended(AppendAll(m, attrs[..|attrs| - 1]), attrs[|attrs| - 1])
  }

  /** A run of `addAttribute` calls appends the attributes in order and adds
      their section size to the length field, modulo 2^16, whatever the field
      held before. */
  lemma {:induction false} AppendAllFacts(m: Message, attrs: seq<Attribute>)
    ensures AppendAll(m, attrs)
         == Message(m.types, (m.length + SectionSize(attrs)) % 0x1_0000, m.transId, m.attributes + attrs)
  {
    if attrs != [] {
      var init, last := attrs[..|attrs| - 1], attrs[|attrs| - 1];
      assert attrs == init + [last];
      AppendAllFacts(m, init);
      SectionSizeAppend(init, last);
      ModAddLeft(m.length + SectionSize(init), Align(last.length) + 4);
      assert m.attributes + init + [last] == m.attributes + attrs;
    }
  }

  /** A packet built by `newPacket` and `addAttribute` alone has
      `length == SectionSize(attributes)` modulo 2^16. */
  lemma BuiltPacketLength(nonce: Nonce, attrs: seq<Attribute>)
    ensures AppendAll(FreshMessage(nonce), attrs).attributes == attrs
    ensures LengthInSync(AppendAll(FreshMessage(nonce), attrs))
  {
    var m0 := FreshMessage(nonce);
    assert m0 == Message(0, 0, m0.transId, []);
    EmptyHeaderInSync(m0.transId, attrs);
  }

  /** What `BuiltPacketLength` states, for any message with a zero header.
      It is a lemma of its own so that its proof does not have the
      definition of `FreshMessage` in view, which makes it much costlier. */
  lemma EmptyHeaderInSync(transId: seq<byte>, attrs: seq<Attribute>)
    ensures AppendAll(Message(0, 0, transId, []), attrs).attributes == attrs
    ensures LengthInSync(AppendAll(Message(0, 0, transId, []), attrs))
  {
    FromHeader(0, 0, transId, attrs);
  }

  // ---------------------------------------------------------------------
  // Serialiser (bytes)
  // ---------------------------------------------------------------------

  /** One attribute on the wire as `bytes` writes it: no padding. */
  function EncodeAttribute(a: Attribute): seq<byte>
  {
    BE16(a.types) + BE16(a.length) + a.value
  }

  function EncodeAttributes(attrs: seq<Attribute>): seq<byte>
  {
    if attrs == [] then [] else EncodeAttribute(attrs[0]) + EncodeAttributes(attrs[1..])
  }

  lemma {:induction false} EncodeAttributesAppend(attrs: seq<Attribute>, a: Attribute)
    ensures EncodeAttributes(attrs + [a]) == EncodeAttributes(attrs) + EncodeAttribute(a)
  {
    if attrs == [] {
      assert attrs + [a] == [a];
    } else {
      assert (attrs + [a])[1..] == attrs[1..] + [a];
      EncodeAttributesAppend(attrs[1..], a);
    }
  }

  /** The image `bytes` builds: header, transaction id, attributes in order. */
  function Serialize(m: Message): seq<byte>
  {
    BE16(m.types) + BE16(m.length) + m.transId + EncodeAttributes(m.attributes)
  }

  /** Bytes emitted for an attribute section: each header and value, no padding. */
  function WireSize(attrs: seq<Attribute>): nat
  {
    if attrs == [] then 0 else 4 + |attrs[0].value| + WireSize(attrs[1..])
  }

  lemma {:induction false} EncodeAttributesSize(attrs: seq<Attribute>)
    ensures |EncodeAttributes(attrs)| == WireSize(attrs)
  {
    if attrs != [] {
      EncodeAttributesSize(attrs[1..]);
    }
  }

  /** The layout of the serialised header, and the total size
      `20 + sum of (4 + |value|)` for a 16-byte transaction id. */
  lemma SerializeLayout(m: Message)
    requires |m.transId| == 16
    ensures var s := Serialize(m);
      && |s| == 20 + WireSize(m.attributes)
      && Uint16(s[0], s[1]) == m.types
      && Uint16(s[2], s[3]) == m.length
      && s[4..20] == m.transId
      && s[20..] == EncodeAttributes(m.attributes)
  {
    EncodeAttributesSize(m.attributes);
    Uint16Codec(m.types, 0, 0);
    Uint16Codec(m.length, 0, 0);
  }

  /** Since no padding is emitted, the length field describes the serialised
      attribute bytes exactly when every value is already a multiple of 4
      (and the section fits in 16 bits). */
  lemma {:induction false} WireSizeMatchesSectionSize(attrs: seq<Attribute>)
    requires forall k | 0 <= k < |attrs| :: attrs[k].WellFormed() && attrs[k].length % 4 == 0
    ensures WireSize(attrs) == SectionSize(attrs)
  {
    if attrs != [] {
      WireSizeMatchesSectionSize(attrs[1..]);
    }
  }

  lemma HeaderLengthIsBodySize(m: Message)
    requires LengthInSync(m) && SectionSize(m.attributes) < 0x1_0000
    requires forall k | 0 <= k < |m.attributes| :: m.attributes[k].WellFormed() && m.attributes[k].length % 4 == 0
    ensures m.length == |EncodeAttributes(m.attributes)|
  {
    WireSizeMatchesSectionSize(m.attributes);
    EncodeAttributesSize(m.attributes);
  }

  // ---------------------------------------------------------------------
  // Parser (newPacketFromBytes)
  // ---------------------------------------------------------------------

  /** Why `newPacketFromBytes` produced no packet. `OutOfRange` stands for the
      Go runtime panic of a slice expression whose bounds are out of range. */
  datatype ParseError = TooShort | FormatMismatch | OutOfRange | EntropyFailure(err: IoError)

  /** Longest buffer the model parses: up to this size the 16-bit cursor
      cannot wrap around (the receive path hands over at most 1024 bytes). */
  const MaxParsable: nat := 65532

  /** The attribute loop of `newPacketFromBytes` from cursor `pos`, with the
      `uint16` arithmetic of the Go code written out. */
  function Walk(b: seq<byte>, pos: nat): Result<seq<Attribute>, ParseError>
    requires |b| <= MaxParsable && pos <= |b| + 3
    decreases |b| + 3 - pos
  {
    if pos >= |b| then Ok([])
    // packetBytes[pos:pos+2] and packetBytes[pos+2:pos+4]
    else if pos + 4 > |b| then Err(OutOfRange)
    else
      var types := Uint16(b[pos], b[pos + 1]);
      var length := Uint16(b[pos + 2], b[pos + 3]);
      var end := (pos + 4 + length) % 0x1_0000;
      if end > |b| then Err(FormatMismatch)
      // packetBytes[pos+4:end] with end below pos+4 after wrap-around
      else if end < pos + 4 then Err(OutOfRange)
      else
        assert end == pos + 4 + length;
        var next := (pos + Align(length) + 4) % 0x1_0000;
        assert next == pos + 4 + Align(length);
        match Walk(b, next)
        case Err(e) => Err(e)
        case Ok(rest) => Ok([NewAttribute(types, b[pos + 4..end])] + rest)
  }

  /** Declarative reading of a successful walk: the attributes sit at
      successive cursors from `pos`, each with a 4-byte header that carries
      its type and length, its value right after the header and inside the
      buffer, and the next cursor `4 + Align(length)` further on, so that
      the padding is skipped. The last cursor is at or past the end. */
  predicate LaidOut(b: seq<byte>, pos: nat, attrs: seq<Attribute>)
    decreases |attrs|
  {
    if attrs == [] then pos >= |b|
    else
      var a := attrs[0];
      && a.WellFormed()
      && pos + 4 + a.length <= |b|
      && Uint16(b[pos], b[pos + 1]) == a.types
      && Uint16(b[pos + 2], b[pos + 3]) == a.length
      && b[pos + 4..pos + 4 + a.length] == a.value
      && LaidOut(b, pos + 4 + Align(a.length), attrs[1..])
  }

  /** Attribute `a` sits at cursor `pos`: well-formed, with a 4-byte header
      that carries its type and length and its value right after the
      header, inside the buffer. */
  predicate AttributeAt(b: seq<byte>, pos: nat, a: Attribute)
  {
    && a.WellFormed()
    && pos + 4 + a.length <= |b|
    && Uint16(b[pos], b[pos + 1]) == a.types
    && Uint16(b[pos + 2], b[pos + 3]) == a.length
    && b[pos + 4..pos + 4 + a.length] == a.value
  }

  /** The attributes sit at successive cursors from `pos` as in `LaidOut`,
      and the cursor after the last one is `end`; the bytes from `end` on
      play no part. Stated from the last attribute back, the order in
      which the loop adds them. */
  predicate LaidOutTo(b: seq<byte>, pos: nat, attrs: seq<Attribute>, end: nat)
    decreases |attrs|
  {
    if attrs == [] then pos == end
    else
      var last := attrs[|attrs| - 1];
      var at := end - 4 - Align(last.length);
      && pos <= at
      && LaidOutTo(b, pos, attrs[..|attrs| - 1], at)
      && AttributeAt(b, at, last)
  }

  lemma {:induction false} WalkIsLaidOut(b: seq<byte>, pos: nat)
    requires |b| <= MaxParsable && pos <= |b| + 3
    ensures Walk(b, pos).Ok? ==> LaidOut(b, pos, Walk(b, pos).value)
    decreases |b| + 3 - pos
  {
    if pos < |b| && pos + 4 <= |b| {
      var length := Uint16(b[pos + 2], b[pos + 3]);
      var end := (pos + 4 + length) % 0x1_0000;
      if pos + 4 <= end <= |b| {
        assert end == pos + 4 + length;
        var next := (pos + Align(length) + 4) % 0x1_0000;
        assert next == pos + 4 + Align(length);
        WalkIsLaidOut(b, next);
      }
    }
  }

  /** One step of the walk over an attribute that fits in the buffer. */
  lemma WalkStep(b: seq<byte>, pos: nat)
    requires |b| <= MaxParsable && pos + 4 <= |b|
    requires pos + 4 + Uint16(b[pos + 2], b[pos + 3]) <= |b|
    ensures var length := Uint16(b[pos + 2], b[pos + 3]);
      var a := NewAttribute(Uint16(b[pos], b[pos + 1]), b[pos + 4..pos + 4 + length]);
      Walk(b, pos) == match Walk(b, pos + 4 + Align(length))
                      case Err(e) => Err(e)
                      case Ok(rest) => Ok([a] + rest)
  {
    var length := Uint16(b[pos + 2], b[pos + 3]);
    assert (pos + 4 + length) % 0x1_0000 == pos + 4 + length;
    assert (pos + Align(length) + 4) % 0x1_0000 == pos + 4 + Align(length);
  }

  lemma {:induction false} LaidOutIsWalk(b: seq<byte>, pos: nat, attrs: seq<Attribute>)
    requires |b| <= MaxParsable && pos <= |b| + 3
    requires LaidOut(b, pos, attrs)
    ensures Walk(b, pos) == Ok(attrs)
    decreases |attrs|
  {
    if attrs != [] {
      var a := attrs[0];
      WalkStep(b, pos);
      LaidOutIsWalk(b, pos + 4 + Align(a.length), attrs[1..]);
      assert NewAttribute(a.types, a.value) == a;
      assert [a] + attrs[1..] == attrs;
    }
  }

  /** The message read from the header of `b` that then receives `attrs`:
      its length field grows by their section size, modulo 2^16. */
  function Decoded(b: seq<byte>, attrs: seq<Attribute>): Message
    requires |b| >= 20
  {
    Message(Uint16(b[0], b[1]), (Uint16(b[2], b[3]) + SectionSize(attrs)) % 0x1_0000, b[4..20], attrs)
  }

  /** `newPacketFromBytes`: reject short buffers, draw a fresh packet (which
      may fail), read the header, then add the walked attributes one by one
      with `addAttribute`. Those calls leave `Decoded(b, attrs)`, as
      `ParseIsHeaderThenAdds` proves. */
  function Parse(b: seq<byte>, draw: RandomDraw): (r: Result<Message, ParseError>)
    requires |b| <= MaxParsable
    ensures |b| < 24 ==> r == Err(TooShort)
    ensures |b| >= 24 && draw.DrawFailed? ==> r == Err(EntropyFailure(draw.err))
    ensures r.Ok? ==> |b| >= 24 && draw.Drawn?
  {
    if |b| < 24 then Err(TooShort)
    else if draw.DrawFailed? then Err(EntropyFailure(draw.err))
    else
      match Walk(b, 20)
      case Err(e) => Err(e)
      case Ok(attrs) => Ok(Decoded(b, attrs))
  }

  /** When `Parse` succeeds. */
  lemma ParseShape(b: seq<byte>, draw: RandomDraw)
    requires |b| <= MaxParsable
    ensures Parse(b, draw).Ok? <==> |b| >= 24 && draw.Drawn? && Walk(b, 20).Ok?
  {
  }

  /** What a successful parse yields: `types` from bytes 0..2, `transId` from
      bytes 4..20, the attributes laid out from byte 20 in wire order, and a
      `length` that is the header's length field PLUS the section size of the
      attributes, because `addAttribute` adds each attribute on top of the
      value read from the wire. */
  lemma ParseSucceeds(b: seq<byte>, draw: RandomDraw)
    requires |b| <= MaxParsable
    ensures Parse(b, draw).Ok? <==> |b| >= 24 && draw.Drawn? && Walk(b, 20).Ok?
    ensures Parse(b, draw).Ok? ==>
      var m := Parse(b, draw).value;
      && m.types == Uint16(b[0], b[1])
      && m.transId == b[4..20]
      && LaidOut(b, 20, m.attributes)
      && m.length == (Uint16(b[2], b[3]) + SectionSize(m.attributes)) % 0x1_0000
  {
    ParseShape(b, draw);
    if Parse(b, draw).Ok? {
      ParsedFields(b, draw);
    }
  }

  /** The fields of the message parsed from a buffer whose walk succeeds. */
  lemma ParsedFields(b: seq<byte>, draw: RandomDraw)
    requires 24 <= |b| <= MaxParsable && draw.Drawn? && Walk(b, 20).Ok?
    ensures Parse(b, draw).Ok?
    ensures var m := Parse(b, draw).value;
      && m.types == Uint16(b[0], b[1])
      && m.transId == b[4..20]
      && LaidOut(b, 20, m.attributes)
      && m.length == (Uint16(b[2], b[3]) + SectionSize(m.attributes)) % 0x1_0000
  {
    ParseOfWalk(b, draw, Walk(b, 20).value);
    WalkIsLaidOut(b, 20);
  }

  /** An attribute whose declared length runs past the end of the buffer is
      never accepted. Without 16-bit wrap-around it is the format-mismatch
      error; when `pos + 4 + length` wraps, the Go code either fails the
      same check or panics on the value slice. */
  lemma OverrunRejected(b: seq<byte>, pos: nat)
    requires |b| <= MaxParsable && pos < |b| && pos + 4 <= |b|
    requires pos + 4 + Uint16(b[pos + 2], b[pos + 3]) > |b|
    ensures Walk(b, pos).Err?
    ensures pos + 4 + Uint16(b[pos + 2], b[pos + 3]) < 0x1_0000 ==> Walk(b, pos) == Err(FormatMismatch)
  {
  }

  /** The wrap-around case made concrete: a 24-byte message whose only
      attribute declares length 0xFFFC passes the 16-bit bounds check
      (24 + 0xFFFC wraps to 20) and reaches a slice whose upper bound is
      below its lower bound. */
  lemma WrappedLengthReachesBadSlice(b: seq<byte>, draw: RandomDraw)
    requires |b| == 24 && draw.Drawn?
    requires b[22] == 0xFF && b[23] == 0xFC
    ensures Parse(b, draw) == Err(OutOfRange)
  {
    assert Uint16(b[22], b[23]) == 0xFFFC;
  }

  /** The walk goes through attributes laid out from `pos` and then fails
      exactly as it fails at the cursor they reach. */
  lemma {:induction false} WalkPastPrefix(b: seq<byte>, pos: nat, attrs: seq<Attribute>, end: nat)
    requires |b| <= MaxParsable && end <= |b| + 3
    requires LaidOutTo(b, pos, attrs, end)
    requires Walk(b, end).Err?
    ensures Walk(b, pos) == Walk(b, end)
    decreases |attrs|
  {
    if attrs != [] {
      var last := attrs[|attrs| - 1];
      var at := end - 4 - Align(last.length);
      WalkStep(b, at);
      WalkPastPrefix(b, pos, attrs[..|attrs| - 1], at);
    }
  }

  /** A buffer whose attributes, laid out from byte 20, reach a cursor with
      fewer than 4 bytes left after it: the Go code slices the cut-short
      header at that cursor past the end of the buffer. */
  lemma ShortAttributeHeaderPanics(b: seq<byte>, draw: RandomDraw, attrs: seq<Attribute>, end: nat)
    requires 24 <= |b| <= MaxParsable && draw.Drawn?
    requires LaidOutTo(b, 20, attrs, end) && end < |b| < end + 4
    ensures Parse(b, draw) == Err(OutOfRange)
  {
    assert Walk(b, end) == Err(OutOfRange);
    WalkPastPrefix(b, 20, attrs, end);
  }

  /** `v` occupies `b[off..off + |v|]`. */
  predicate SliceAt(b: seq<byte>, off: nat, v: seq<byte>)
  {
    off + |v| <= |b| && b[off..off + |v|] == v
  }

  /** The cursor at which the `k`-th attribute's header starts, for a walk
      that begins at `pos`. */
  function Cursor(attrs: seq<Attribute>, pos: nat, k: nat): nat
    requires k < |attrs|
  {
    if k == 0 then pos else Cursor(attrs[1..], pos + 4 + Align(attrs[0].length), k - 1)
  }

  /** No attribute a parse produces reaches outside the buffer: the `k`-th
      value is the slice of `b` right after the `k`-th cursor's 4-byte
      header, and cursors only move forward, by `4 + Align(length)`. */
  lemma {:induction false} LaidOutWithinBuffer(b: seq<byte>, pos: nat, attrs: seq<Attribute>, k: nat)
    requires LaidOut(b, pos, attrs) && k < |attrs|
    ensures pos <= Cursor(attrs, pos, k)
    ensures SliceAt(b, Cursor(attrs, pos, k) + 4, attrs[k].value)
    ensures k + 1 < |attrs| ==> Cursor(attrs, pos, k + 1) == Cursor(attrs, pos, k) + 4 + Align(attrs[k].length)
    decreases k
  {
    if k > 0 {
      LaidOutWithinBuffer(b, pos + 4 + Align(attrs[0].length), attrs[1..], k - 1);
      assert attrs[1..][k - 1] == attrs[k];
    }
  }

  lemma ParsedValuesWithinBuffer(b: seq<byte>, draw: RandomDraw, k: nat)
    requires |b| <= MaxParsable && Parse(b, draw).Ok? && k < |Parse(b, draw).value.attributes|
    ensures var attrs := Parse(b, draw).value.attributes;
      && 20 <= Cursor(attrs, 20, k)
      && SliceAt(b, Cursor(attrs, 20, k) + 4, attrs[k].value)
  {
    ParseSucceeds(b, draw);
    LaidOutWithinBuffer(b, 20, Parse(b, draw).value.attributes, k);
  }

  // ---------------------------------------------------------------------
  // Serialise, then parse
  // ---------------------------------------------------------------------

  /** Everything but the last value is already a multiple of 4 bytes, so the
      missing padding of `bytes` does not shift any later attribute. */
  predicate AlignedBeforeLast(attrs: seq<Attribute>)
  {
    forall k | 0 <= k < |attrs| - 1 :: attrs[k].length % 4 == 0
  }

  predicate AllWellFormed(attrs: seq<Attribute>)
  {
    forall k | 0 <= k < |attrs| :: attrs[k].WellFormed()
  }

  /** Where the pieces of one encoded attribute sit when the buffer from
      `pos` on is that encoding followed by `tail`. */
  lemma EncodedAttributeAt(b: seq<byte>, pos: nat, a: Attribute, tail: seq<byte>)
    requires a.WellFormed() && pos <= |b| && b[pos..] == EncodeAttribute(a) + tail
    ensures pos + 4 + a.length <= |b|
    ensures Uint16(b[pos], b[pos + 1]) == a.types
    ensures Uint16(b[pos + 2], b[pos + 3]) == a.length
    ensures b[pos + 4..pos + 4 + a.length] == a.value
    ensures b[pos + 4 + a.length..] == tail
  {
    var s := b[pos..];
    Uint16Codec(a.types, 0, 0);
    Uint16Codec(a.length, 0, 0);
    assert s[0] == BE16(a.types)[0] && s[1] == BE16(a.types)[1];
    assert s[2] == BE16(a.length)[0] && s[3] == BE16(a.length)[1];
    assert b[pos] == s[0] && b[pos + 1] == s[1] && b[pos + 2] == s[2] && b[pos + 3] == s[3];
    assert s[4..4 + a.length] == a.value;
    assert b[pos + 4..pos + 4 + a.length] == s[4..4 + a.length];
    assert s[4 + a.length..] == tail;
    assert b[pos + 4 + a.length..] == s[4 + a.length..];
  }

  lemma TailConditions(attrs: seq<Attribute>)
    requires attrs != [] && AllWellFormed(attrs) && AlignedBeforeLast(attrs)
    ensures attrs[0].WellFormed() && AllWellFormed(attrs[1..]) && AlignedBeforeLast(attrs[1..])
    ensures |attrs| > 1 ==> attrs[0].length % 4 == 0
  {
    var rest := attrs[1..];
    forall k | 0 <= k < |rest| ensures rest[k].WellFormed() && (k < |rest| - 1 ==> rest[k].length % 4 == 0) {
      assert rest[k] == attrs[k + 1];
    }
  }

  /** Folding one level of `LaidOut`: the first attribute in place and the
      rest laid out after its padded value. */
  lemma LaidOutCons(b: seq<byte>, pos: nat, attrs: seq<Attribute>)
    requires attrs != [] && attrs[0].WellFormed()
    requires pos + 4 + attrs[0].length <= |b|
    requires Uint16(b[pos], b[pos + 1]) == attrs[0].types
    requires Uint16(b[pos + 2], b[pos + 3]) == attrs[0].length
    requires b[pos + 4..pos + 4 + attrs[0].length] == attrs[0].value
    requires LaidOut(b, pos + 4 + Align(attrs[0].length), attrs[1..])
    ensures LaidOut(b, pos, attrs)
  {
  }

  /** An encoding of well-formed attributes, none but the last needing
      padding, that fills the buffer from `pos` to the end is laid out from
      `pos`. */
  lemma {:induction false} EncodingIsLaidOut(b: seq<byte>, pos: nat, attrs: seq<Attribute>)
    requires AllWellFormed(attrs) && AlignedBeforeLast(attrs)
    requires pos <= |b| && b[pos..] == EncodeAttributes(attrs)
    ensures LaidOut(b, pos, attrs)
    decreases |attrs|
  {
    if attrs != [] {
      var a, rest := attrs[0], attrs[1..];
      TailConditions(attrs);
      EncodedAttributeAt(b, pos, a, EncodeAttributes(rest));
      var mid := pos + 4 + a.length;
      if rest != [] {
        AlignExact(a.length);
        EncodingIsLaidOut(b, mid, rest);
      } else {
        assert |b[mid..]| == 0;
      }
      LaidOutCons(b, pos, attrs);
    }
  }

  lemma EncodedIsLaidOut(prefix: seq<byte>, attrs: seq<Attribute>)
    requires AllWellFormed(attrs) && AlignedBeforeLast(attrs)
    ensures LaidOut(prefix + EncodeAttributes(attrs), |prefix|, attrs)
  {
    var b := prefix + EncodeAttributes(attrs);
    assert b[|prefix|..] == EncodeAttributes(attrs);
    EncodingIsLaidOut(b, |prefix|, attrs);
  }

  /** The message `Parse` builds from the header and a successful walk. */
  lemma ParseOfWalk(b: seq<byte>, draw: RandomDraw, attrs: seq<Attribute>)
    requires 24 <= |b| <= MaxParsable && draw.Drawn? && Walk(b, 20) == Ok(attrs)
    ensures Parse(b, draw) == Ok(Decoded(b, attrs))
  {
    assert Walk(b, 20).value == attrs;
  }

  /** The message `Parse` builds is what the `addAttribute` calls leave on
      the header read from the wire. */
  lemma ParseIsHeaderThenAdds(b: seq<byte>, draw: RandomDraw, attrs: seq<Attribute>)
    requires 24 <= |b| <= MaxParsable && draw.Drawn? && Walk(b, 20) == Ok(attrs)
    ensures Parse(b, draw) == Ok(AppendAll(Message(Uint16(b[0], b[1]), Uint16(b[2], b[3]), b[4..20], []), attrs))
  {
    AddsOnHeader(b, attrs);
    ParseOfWalk(b, draw, attrs);
  }

  /** `FromHeader` for the header read from `b`. Kept apart from the walk so
      that its proof does not have the definition of `Walk` in view. */
  lemma AddsOnHeader(b: seq<byte>, attrs: seq<Attribute>)
    requires |b| >= 20
    ensures AppendAll(Message(Uint16(b[0], b[1]), Uint16(b[2], b[3]), b[4..20], []), attrs) == Decoded(b, attrs)
  {
    FromHeader(Uint16(b[0], b[1]), Uint16(b[2], b[3]), b[4..20], attrs);
  }

  /** A message that starts from a header with no attributes and then
      receives `attrs` holds exactly those, with the length field grown by
      their section size. */
  lemma FromHeader(types: u16, length: u16, transId: seq<byte>, attrs: seq<Attribute>)
    ensures AppendAll(Message(types, length, transId, []), attrs)
         == Message(types, (length + SectionSize(attrs)) % 0x1_0000, transId, attrs)
  {
    var m0 := Message(types, length, transId, []);
    AppendAllFacts(m0, attrs);
    assert m0.attributes + attrs == attrs;
  }

  /** A buffer with a header and attributes laid out from byte 20 parses to
      those attributes on top of its header. */
  lemma ParseOfLaidOut(b: seq<byte>, draw: RandomDraw, attrs: seq<Attribute>)
    requires 24 <= |b| <= MaxParsable && draw.Drawn? && LaidOut(b, 20, attrs)
    ensures Parse(b, draw) == Ok(Decoded(b, attrs))
  {
    LaidOutIsWalk(b, 20, attrs);
    ParseOfWalk(b, draw, attrs);
  }

  /** Round trip: parsing what `bytes` emits gives back the message type, the
      transaction id and the attribute sequence in order, provided there is
      at least one attribute (otherwise the 20-byte image is too short) and
      no value but the last needs padding. The length field does NOT round
      trip: the parsed one is the serialised one plus the section size. */
  lemma RoundTrip(m: Message, draw: RandomDraw)
    requires |m.transId| == 16 && |m.attributes| >= 1
    requires AllWellFormed(m.attributes) && AlignedBeforeLast(m.attributes)
    requires |Serialize(m)| <= MaxParsable && draw.Drawn?
    ensures Parse(Serialize(m), draw)
         == Ok(Message(m.types, (m.length + SectionSize(m.attributes)) % 0x1_0000, m.transId, m.attributes))
  {
    var s := Serialize(m);
    var header := BE16(m.types) + BE16(m.length) + m.transId;
    assert s == header + EncodeAttributes(m.attributes);
    SerializeLayout(m);
    assert WireSize(m.attributes) >= 4;
    EncodedIsLaidOut(header, m.attributes);
    ParseOfLaidOut(s, draw, m.attributes);
    DecodedHeader(s, m);
  }

  /** A buffer whose header carries the type, length and transaction id of
      `m` reads back as `m` with its length grown by the section size. */
  lemma DecodedHeader(b: seq<byte>, m: Message)
    requires |b| >= 20 && b[4..20] == m.transId
    requires Uint16(b[0], b[1]) == m.types && Uint16(b[2], b[3]) == m.length
    ensures Decoded(b, m.attributes)
         == Message(m.types, (m.length + SectionSize(m.attributes)) % 0x1_0000, m.transId, m.attributes)
  {
  }

  /** For a message whose length field was kept in step, the parsed length is
      twice the section size (modulo 2^16). */
  lemma RoundTripDoublesLength(m: Message, draw: RandomDraw)
    requires LengthInSync(m)
    requires |m.transId| == 16 && |m.attributes| >= 1
    requires AllWellFormed(m.attributes) && AlignedBeforeLast(m.attributes)
    requires |Serialize(m)| <= MaxParsable && draw.Drawn?
    ensures Parse(Serialize(m), draw).Ok?
    ensures Parse(Serialize(m), draw).value.length == (2 * SectionSize(m.attributes)) % 0x1_0000
  {
    RoundTrip(m, draw);
    ModAddLeft(SectionSize(m.attributes), SectionSize(m.attributes));
  }

  /** A message with no attributes serialises to 20 bytes, which the parser
      rejects as too short. */
  lemma EmptyMessageDoesNotParse(m: Message, draw: RandomDraw)
    requires |m.transId| == 16 && m.attributes == []
    ensures Parse(Serialize(m), draw) == Err(TooShort)
  {
    SerializeLayout(m);
  }

  // ---------------------------------------------------------------------
  // First-match scan (sourceAddr, mappedAddr, changeAddr, xorMappedAddr)
  // ---------------------------------------------------------------------

  /** The index of the first attribute whose type is one of `codes`. */
  function FirstOfType(attrs: seq<Attribute>, codes: set<u16>): (r: Option<nat>)
    ensures r.Some? ==> r.value < |attrs| && attrs[r.value].types in codes
    ensures r.Some? ==> forall j | 0 <= j < r.value :: attrs[j].types !in codes
    ensures r.None? ==> forall j | 0 <= j < |attrs| :: attrs[j].types !in codes
  {
    if attrs == [] then None
    else if attrs[0].types in codes then Some(0)
    else
      match FirstOfType(attrs[1..], codes)
      case None => None
      case Some(i) => Some(i + 1)
  }
}
