# STUN client message layer (`stun/packet.go`)

A Dafny model of the STUN client's message layer, with proofs about it.

- **A STUN message** is a 2-byte type and a 2-byte length, then a 16-byte transaction id (the magic cookie `0x2112A442` and 12 random bytes), then type-length-value attributes. The layout follows sections 6 and 15 of RFC 5389.
- **Building a message.** `newPacket` makes an empty message. `addAttribute` appends an attribute and keeps the 16-bit `length` field up to date.
- **Wire image and parsing.** `bytes` writes the message out. `newPacketFromBytes` parses one by walking its attributes with a 16-bit cursor.
- **Lookup.** Four accessors return the decoding of the first attribute of a given type.
- **The retransmission loop `send`.** It sends up to 9 requests, with a read deadline per attempt that follows the schedule of section 9.3 of RFC 3489. It waits for a reply that carries the request's transaction id.

The model has four modules, one per file:

- **StunWire** (`stun_wire.dfy`) holds the byte vocabulary:
  - 16- and 32-bit big-endian codecs;
  - the magic cookie;
  - the attribute type codes;
  - the `Attribute` record;
  - `Align`, the 4-byte padding rule;
  - the outcome of a random draw.
- **StunMessage** (`stun_message.dfy`) is the value side:
  - `Message`, the four fields of the Go struct;
  - `Appended`: the effect of `addAttribute`, with the `uint16` wrap written out;
  - `Serialize`: the image `bytes` emits;
  - `Walk` and `Parse`: the attribute loop and the whole of `newPacketFromBytes`;
  - `FirstOfType`: the first-match scan the accessors share;
  - lemmas relating all of these.
- **StunExchange** (`stun_exchange.dfy`) specifies `send` over a scripted transport:
  - for each attempt, the transport gives a write result, a deadline-set result and a finite list of read events;
  - running out of events means the deadline expires;
  - `Exchange` is the outer loop and `Await` the inner one;
  - a `Run` records the outcome, the deadlines armed (in ms) and the number of writes.
- **StunPacket** (`stun_packet.dfy`) is the imperative code:
  - `class Packet` with the struct's fields;
  - the methods `AddAttribute`, `Bytes`, `Send` and `AwaitReply`, with the loops of the source;
  - the four accessors;
  - the module-level methods `NewPacket` and `NewPacketFromBytes`.
  - Each method is proved against the functions of the two modules above.

Go runtime panics are modelled as explicit outcomes rather than excluded by preconditions:

- A slice index out of range while parsing gives `ParseError.OutOfRange`.
- `send` dereferences the nil packet of a failed parse. This gives `Crash.UnparsedReply`.
- The type assertion `err.(net.Error)` fails on an error that is not a `net.Error`. This gives `Crash.NotNetError`.

A parsed message's `length` is the header's length field *plus* the size of the attribute section (modulo 2^16). This is because `addAttribute` adds every parsed attribute on top of the value read from the wire. So the length field does not round-trip, and the model proves exactly how it changes.

## Model

| member | source | states |
|---|---|---|
| StunWire.Uint16Codec | stun/packet.go:65-66 | big-endian `Uint16` of `PutUint16`'s two bytes gives back the value, and re-encoding two bytes read back gives the same two bytes |
| StunWire.Uint32OfBE32 | stun/packet.go:47 | reading back the 4 bytes `PutUint32` writes gives back the 32-bit value, so the cookie can be recovered from the transaction id |
| StunWire.Align | stun/packet.go:77 | the padded length is the least multiple of 4 that is at least `n` (it is at least `n`, divisible by 4, and less than `n + 4`) |
| StunWire.NewAttribute | stun/packet.go:75 | the attribute built from a type and a value has that type and value, and a length field equal to the value's size |
| StunMessage.FreshMessage | stun/packet.go:44-55 | a fresh message has a 16-byte transaction id whose first 4 bytes read back as the magic cookie and whose last 12 are the nonce, type 0, length 0, no attributes, and its length in step with its (empty) attribute section |
| StunMessage.AppendedKeepsLengthInSync | stun/packet.go:82-85 | appending keeps every earlier attribute, puts the new one last, leaves type and transaction id alone, and keeps `length == section size mod 2^16` |
| StunMessage.AppendAllFacts | stun/packet.go:82-85 | any run of `addAttribute` calls appends the attributes in order and adds their padded section size to whatever the length field held, modulo 2^16 |
| StunMessage.BuiltPacketLength | stun/packet.go:82-85 | a packet built only by `newPacket` and `addAttribute` holds exactly the added attributes and has `length == sum of (4 + align(len))` modulo 2^16 |
| StunMessage.SerializeLayout | stun/packet.go:87-101 | the wire image is the type, then the length (2 bytes each, big-endian), then the transaction id in bytes 4..20, then the attributes' encodings, `20 + sum of (4 + size of value)` bytes in all |
| StunMessage.HeaderLengthIsBodySize | stun/packet.go:87-101 | when no value needs padding and the section fits in 16 bits, a length kept in step equals the number of attribute bytes `bytes` emits |
| StunMessage.Parse | stun/packet.go:57-64 | a buffer shorter than 24 bytes is rejected as too short, a failed random draw is reported as such, and success implies neither happened |
| StunMessage.ParseIsHeaderThenAdds | stun/packet.go:65-78 | after a successful walk, the message `Parse` gives is what the `addAttribute` calls leave on the header read from bytes 0..20 |
| StunMessage.WalkIsLaidOut | stun/packet.go:68-78 | every attribute list the cursor loop returns is laid out in the buffer: header fields at each cursor, the value right after them inside the buffer, the next cursor `4 + align(len)` on |
| StunMessage.LaidOutIsWalk | stun/packet.go:68-78 | conversely, attributes laid out that way from a cursor are exactly what the loop returns from it |
| StunMessage.ParseSucceeds | stun/packet.go:65-78 | parsing succeeds iff the buffer has 24 bytes, the draw succeeds and the walk from byte 20 succeeds; then type comes from bytes 0..2, the transaction id is bytes 4..20, the attributes are laid out from byte 20 in wire order with unknown types kept, and length is the header's length plus the section size mod 2^16 |
| StunMessage.OverrunRejected | stun/packet.go:71-73 | an attribute whose declared length runs past the end of the buffer always makes the walk fail, with the format-mismatch error whenever `pos + 4 + length` does not wrap |
| StunMessage.WrappedLengthReachesBadSlice | stun/packet.go:71-74 | a 24-byte buffer whose attribute declares length 0xFFFC passes the wrapped 16-bit bounds test and reaches a slice with bounds out of range |
| StunMessage.WalkPastPrefix | stun/packet.go:68-78 | the loop passes through attributes laid out from a cursor and then fails exactly as it fails at the cursor they reach |
| StunMessage.ShortAttributeHeaderPanics | stun/packet.go:68-70 | when the attributes laid out from byte 20 reach a cursor with fewer than 4 bytes left, the header slice at that cursor goes out of range and parsing panics |
| StunMessage.LaidOutWithinBuffer | stun/packet.go:74-77 | the `k`-th value is the slice of the buffer right after the `k`-th cursor's header, and each cursor lies `4 + align(len)` past the previous one |
| StunMessage.ParsedValuesWithinBuffer | stun/packet.go:74 | every value a successful parse yields lies within the buffer, after byte 20 |
| StunMessage.RoundTrip | stun/packet.go:65-101 | parsing the image of a message with a 16-byte id, at least one well-formed attribute and no padding needed before the last gives back the type, the transaction id and the attribute sequence, with the length field grown by the section size |
| StunMessage.RoundTripDoublesLength | stun/packet.go:66-84 | for a message whose length was kept in step, the parsed length is twice the section size modulo 2^16 |
| StunMessage.EmptyMessageDoesNotParse | stun/packet.go:58-59 | the 20-byte image of a message without attributes is rejected as too short |
| StunMessage.FirstOfType | stun/packet.go:103-137 | the index returned is of an attribute with one of the codes and no earlier attribute has one; no index means no attribute has one |
| StunExchange.IntervalsFollowRfc3489 | stun/packet.go:147-162 | starting at 100 and doubling while below 1600, the interval of attempt `i` is entry `i` of 100, 200, 400, 800, 1600, 1600, 1600, 1600, 1600 |
| StunExchange.ExchangeFollowsSchedule | stun/packet.go:147-182 | from any attempt reached on schedule: at most 9 writes, the armed deadlines are a prefix of the RFC 3489 schedule, at most one write lacks a deadline, and no reply comes only after all 9 |
| StunExchange.SendFollowsSchedule | stun/packet.go:147-182 | `send` writes between 1 and 9 times, arms a prefix of the RFC 3489 schedule, arms a deadline after every write but possibly the last, and returns no reply only after 9 writes and the whole schedule |
| StunExchange.TimeoutsLeadOn | stun/packet.go:148-169 | after `k` attempts that time out, the exchange is at attempt `k` with the first `k` deadlines of the schedule armed |
| StunExchange.NoReplyIffAllAttemptsExpire | stun/packet.go:148-182 | `send` returns `nil, nil, nil` exactly when all 9 attempts write the full request, arm their deadline and time out, and then it wrote 9 times and armed the whole schedule |
| StunExchange.FirstNonTimeoutDecides | stun/packet.go:148-180 | the first attempt that does not time out decides the result: a write error, a short write or a deadline error returns that error without arming; a read error, a crash or a matching reply returns with that attempt's deadline armed; a timeout moves on to attempt `k + 1` |
| StunExchange.UnrelatedDatagramsSkipped | stun/packet.go:163-175 | datagrams that parse but carry another transaction id leave how the wait ends unchanged: no new write, no new deadline |
| StunExchange.ReplyOnFirstAttempt | stun/packet.go:147-179 | a matching reply read on the first attempt ends `send` at once with that reply, one write and one 100 ms deadline |
| StunPacket.Packet.constructor | stun/packet.go:44-55 | the new packet's fields are the fresh message for the drawn nonce |
| StunPacket.NewPacket | stun/packet.go:44-55 | a failed draw returns its error; otherwise a newly allocated packet holding the fresh message |
| StunPacket.Packet.AddAttribute | stun/packet.go:82-85 | the attribute is appended last, type and transaction id unchanged, the length grows by `align(len) + 4` modulo 2^16, and a length in step stays in step |
| StunPacket.Packet.Bytes | stun/packet.go:87-101 | the loop builds exactly the serialised image, of `20 + sum of (4 + size of value)` bytes for a 16-byte id |
| StunPacket.Packet.SourceAddr | stun/packet.go:103-110 | the decoding of the first SOURCE-ADDRESS attribute, or none if there is no such attribute |
| StunPacket.Packet.MappedAddr | stun/packet.go:112-119 | the decoding of the first MAPPED-ADDRESS attribute, or none if there is no such attribute |
| StunPacket.Packet.ChangeAddr | stun/packet.go:121-128 | the decoding of the first CHANGED-ADDRESS attribute, or none if there is no such attribute |
| StunPacket.Packet.XorMappedAddr | stun/packet.go:130-137 | the first attribute under either XOR-MAPPED-ADDRESS code, decoded with the packet's transaction id, or none |
| StunPacket.NewPacketFromBytes | stun/packet.go:57-80 | the cursor loop returns a newly allocated packet holding exactly the message `Parse` describes, or exactly the error `Parse` gives |
| StunPacket.AddWalkedAttributes | stun/packet.go:68-78 | the cursor loop succeeds exactly when the attribute walk from byte 20 does, and then the packet has gained exactly the walked attributes through `addAttribute`; in every case the attributes it added are laid out from byte 20 up to the cursor where it stopped, and on a failure the walk fails at that cursor with the error returned |
| StunPacket.Packet.AwaitReply | stun/packet.go:163-180 | the read loop ends exactly as `Await` says: expired, a read error, a crash, or the first datagram whose transaction id matches |
| StunPacket.Packet.Send | stun/packet.go:143-183 | the write/deadline/read loop computes the `send` run of the scripted transport; it writes 1 to 9 times, arms a prefix of the RFC 3489 schedule, and gives no reply only after 9 writes and the full schedule |

## Left out

- The network: `net.PacketConn`, `WriteTo`, `SetReadDeadline`, `ReadFrom` and `time.Now` are replaced by a scripted transport, with deadlines as plain millisecond counts. The destination `addr` is not modelled, since it only passes through to `WriteTo`.
- `crypto/rand.Read` is a foreign call. Its 12 bytes, or its failure, are an input (`RandomDraw`), one per `newPacket` call.
- The `debug` flag, `SetDebug` and the hex dumps do not affect results and are not modelled.
- `attribute.address`, `attribute.xorMappedAddr` and `Host` live in files that are not part of this model. The accessors take the decoder as a function parameter and `Host` as a type parameter.
- The file that defines `newAttribute`, `align`, `magicCookie` and the type codes is not part of this model. They are modelled from their use and from RFC 5389: `align` rounds up to a multiple of 4, and the codes are those of RFC 3489 section 11.2 and RFC 5389 section 18.2.
- Slice capacity is not modelled: every slice has capacity equal to its length.
  - In `send`, the reply buffer has capacity 1024. There, a cut-short attribute header reads past the datagram's length instead of panicking. It takes its length from the zero fill or the leftover bytes beyond the datagram.
  - That garbage length then either fails the bounds test at `stun/packet.go:71`, or passes it after the 16-bit wrap and panics on the value slice at line 74. An example is a 299-byte datagram whose cursor reaches 296 and whose byte 298 is 0xFF: the length reads as 0xFF00, `pos + 4 + length` wraps to 44, and the slice `[300:44]` panics.
  - Either way `send` ends in a panic. Only the recorded cause differs.
- StunMessage.Parse: requires buffers of at most 65532 bytes, and so do Walk and StunPacket.NewPacketFromBytes. Below that size `uint16(len(packetBytes))` does not truncate and the cursor cannot wrap. At 65533 to 65535 bytes the 16-bit cursor can wrap and the Go loop never ends. For example, take a 65535-byte buffer with 16 at bytes 2..3 and one attribute at 20 declaring length 65511. The cursor goes 20, 0, 20, ..., and attributes are appended without end. The bound leaves these buffers out. `send` hands over at most 1024 bytes. The wrap of `pos + 4 + length` is modelled in full.
- The aliasing of `transId` into the received buffer is modelled as a copy; nothing writes to either afterwards.
- `align`'s own 16-bit wrap for lengths above 65532 is not modelled. The lengths that reach it here cannot be that large. The wrapped bounds test at line 71 does not exclude them on its own. Together with the value slice at line 74, which panics when the wrapped end lies before `pos + 4`, it lets through only `pos + 4 + length <= len` without wrap (StunPacket.PassedTestsFit).
- `send` calls `bytes()` twice per attempt (`stun/packet.go:149` and `153`), and once more before the loop when `debug` is set. `bytes` is pure, so the model computes it once.
- Go's `make(..., 0, 10)` capacity hint for `attributes` has no observable effect and is not modelled.
