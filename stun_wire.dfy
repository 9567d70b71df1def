/** Byte-level vocabulary of the STUN message layer: bytes and 16/32-bit
    fields, their big-endian encodings, the magic cookie, the attribute type
    codes the client reads, the attribute record, the padding rule of
    RFC 5389 section 15, and the outcome of drawing random bytes. */
module StunWire {

  type byte = x: int | 0 <= x < 0x100
  type u16 = x: int | 0 <= x < 0x1_0000
  type u32 = x: int | 0 <= x < 0x1_0000_0000

  /** A value below 2^16 is its own `uint16` truncation. */
  lemma Below16(x: int)
    requires 0 <= x < 0x1_0000
    ensures x % 0x1_0000 == x
  {
  }

  datatype Option<T> = None | Some(value: T)

  datatype Result<T, E> = Ok(value: T) | Err(error: E)

  /** `binary.BigEndian.PutUint16`: most significant byte first. */
  function BE16(x: u16): (r: seq<byte>)
    ensures |r| == 2
  {
    [x / 0x100, x % 0x100]
  }

  /** `binary.BigEndian.Uint16` of two bytes. */
  function Uint16(hi: byte, lo: byte): u16
  {
    hi * 0x100 + lo
  }

  /** The two 16-bit codecs are inverse to each other, in both directions. */
  lemma Uint16Codec(x: u16, hi: byte, lo: byte)
    ensures Uint16(BE16(x)[0], BE16(x)[1]) == x
    ensures BE16(Uint16(hi, lo)) == [hi, lo]
  {
  }

  /** `binary.BigEndian.PutUint32`: the high half, then the low half. */
  function BE32(x: u32): (r: seq<byte>)
    ensures |r| == 4
  {
    BE16(x / 0x1_0000) + BE16(x % 0x1_0000)
  }

  /** `binary.BigEndian.Uint32` of four bytes. */
  function Uint32(b: seq<byte>): u32
    requires |b| == 4
  {
    Uint16(b[0], b[1]) * 0x1_0000 + Uint16(b[2], b[3])
  }

  lemma Uint32OfBE32(x: u32)
    ensures Uint32(BE32(x)) == x
  {
    var hi, lo := x / 0x1_0000, x % 0x1_0000;
    Uint16Codec(hi, 0, 0);
    Uint16Codec(lo, 0, 0);
    assert BE32(x) == [BE16(hi)[0], BE16(hi)[1], BE16(lo)[0], BE16(lo)[1]];
  }

  /** The fixed value of RFC 5389 section 6 that opens every transaction id. */
  const MagicCookie: u32 := 0x2112_A442

  // Attribute type codes (RFC 3489 section 11.2, RFC 5389 section 18.2).
  const AttributeMappedAddress: u16 := 0x0001
  const AttributeSourceAddress: u16 := 0x0004
  const AttributeChangedAddress: u16 := 0x0005
  const AttributeXorMappedAddress: u16 := 0x0020
  /** The pre-standard code under which some servers send XOR-MAPPED-ADDRESS. */
  const AttributeXorMappedAddressExp: u16 := 0x8020

  /** Rounds a value length up to the next multiple of 4 (RFC 5389 section 15):
      the least multiple of 4 that is at least `n`. */
  function Align(n: nat): (r: nat)
    ensures r >= n && r % 4 == 0 && r - n < 4
  {
    (n + 3) / 4 * 4
  }

  /** A length that is already a multiple of 4 needs no padding. */
  lemma AlignExact(n: nat)
    requires n % 4 == 0
    ensures Align(n) == n
  {
    var q := n / 4;
    assert n == 4 * q;
    assert (n + 3) / 4 == q;
  }

  lemma AlignIdempotent(n: nat)
    ensures Align(Align(n)) == Align(n)
    ensures Align(5) == 8
  {
  }

  /** A type-length-value attribute. The Go struct does not enforce that
      `length` is the size of `value`; `WellFormed` states it. */
  datatype Attribute = Attribute(types: u16, length: u16, value: seq<byte>) {
    predicate WellFormed() {
      length == |value|
    }
  }

  /** `newAttribute`: an attribute whose length field is its value's size. */
  function NewAttribute(types: u16, value: seq<byte>): (a: Attribute)
    requires |value| < 0x1_0000
    ensures a.WellFormed() && a.types == types && a.value == value
  {
    Attribute(types, |value|, value)
  }

  /** The 12 bytes that `crypto/rand.Read` places after the cookie. */
  type Nonce = s: seq<byte> | |s| == 12 witness [0, 0, 0, 0, 0, 0, 0, 0, 0, 0, 0, 0]

  /** An error reported by a call into code outside the model. */
  datatype IoError = IoError(reason: string)

  /** The outcome of one `crypto/rand.Read` call. */
  datatype RandomDraw = Drawn(bytes: Nonce) | DrawFailed(err: IoError)
}
