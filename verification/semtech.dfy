/**
 * The gateway's `SemtechHeader` and the frame it forwards: the header's 13
 * bytes, copied out of the struct with `memcpy`, followed by the received
 * datagram. The layout follows the PUSH_DATA packet of section 3 of Semtech's
 * packet forwarder protocol, except that the identifier takes two bytes and
 * the gateway id sits at bytes 5 to 12, so the header is 13 bytes, not 12.
 */
module Semtech {
  import opened Wrappers
  import opened CStrings

  /** Every field of the struct is `uint8_t`, so it has no padding. */
  const HeaderSize: nat := 13
  const GatewayIdSize: nat := 8
  const ProtocolVersion: byte := 2

  /** `SemtechHeader`, field by field. */
  datatype Header = Header(version: byte, token0: byte, token1: byte,
                           ident0: byte, ident1: byte, gatewayId: seq<byte>)
  {
    predicate WellFormed() { |gatewayId| == GatewayIdSize }
  }

  /** The bytes of a header, in field order. */
  function Encode(h: Header): (b: seq<byte>)
    requires h.WellFormed()
    ensures |b| == HeaderSize
  {
    [h.version, h.token0, h.token1, h.ident0, h.ident1] + h.gatewayId
  }

  /** Splits a frame into its header and the bytes after it; frames shorter
      than a header have none. */
  function Decode(frame: seq<byte>): (r: Option<(Header, seq<byte>)>)
    ensures r.Some? <==> |frame| >= HeaderSize
    ensures r.Some? ==> r.value.0.WellFormed()
  {
    if |frame| < HeaderSize then None
    else Some((Header(frame[0], frame[1], frame[2], frame[3], frame[4], frame[5..13]), frame[13..]))
  }

  /** Decoding an encoded frame gives back the header and the payload. */
  lemma DecodeEncode(h: Header, payload: seq<byte>)
    requires h.WellFormed()
    ensures Decode(Encode(h) + payload) == Some((h, payload))
  {
  }

  /** Every frame of at least 13 bytes is the encoding of what it decodes to. */
  lemma EncodeDecode(frame: seq<byte>)
    requires |frame| >= HeaderSize
    ensures Decode(frame).Some?
    ensures Encode(Decode(frame).value.0) + Decode(frame).value.1 == frame
  {
  }

  /** The header the gateway fills in: version 2, the token, identifier
      0x00 0x01 (PUSH_DATA), and the gateway id. */
  function PushDataHeader(token: (byte, byte), gatewayId: seq<byte>): (h: Header)
    requires |gatewayId| == GatewayIdSize
    ensures h.WellFormed()
  {
    Header(ProtocolVersion, token.0, token.1, 0x00, 0x01, gatewayId)
  }

  /** The forwarded frame: exactly 13 + n bytes; byte 0 is 2, bytes 1-2 the
      token, bytes 3-4 are 0x00 0x01, bytes 5-12 the gateway id, and the
      received bytes follow unchanged. */
  function PushDataFrame(token: (byte, byte), gatewayId: seq<byte>, payload: seq<byte>): (f: seq<byte>)
    requires |gatewayId| == GatewayIdSize
    ensures |f| == HeaderSize + |payload|
    ensures f[0] == 2 && f[3] == 0x00 && f[4] == 0x01
    ensures f[1] == token.0 && f[2] == token.1
    ensures f[5..13] == gatewayId
    ensures f[13..] == payload
  {
    Encode(PushDataHeader(token, gatewayId)) + payload
  }

  /** The token touches bytes 1 and 2 only: frames built with different
      tokens agree on every other byte. */
  lemma TokenOnlyAffectsBytes1And2(t: (byte, byte), u: (byte, byte), gatewayId: seq<byte>, payload: seq<byte>)
    requires |gatewayId| == GatewayIdSize
    ensures |PushDataFrame(t, gatewayId, payload)| == |PushDataFrame(u, gatewayId, payload)|
    ensures forall i | 0 <= i < HeaderSize + |payload| && i != 1 && i != 2 ::
      PushDataFrame(t, gatewayId, payload)[i] == PushDataFrame(u, gatewayId, payload)[i]
  {
  }

  /** A token byte is `rand() % 256`; `rand()` never returns a negative value. */
  function TokenFromDraws(draw0: nat, draw1: nat): (t: (byte, byte))
    ensures t.0 as int == draw0 % 256 && t.1 as int == draw1 % 256
  {
    ((draw0 % 256) as byte, (draw1 % 256) as byte)
  }

  /** Every pair of bytes is a possible token, so the model treats it as arbitrary. */
  lemma EveryTokenIsReachable(a: byte, b: byte)
    ensures TokenFromDraws(a as nat, b as nat) == (a, b)
  {
  }

  /** Raised when a frame does not fit the buffer it is copied into. */
  datatype Overflow = Overflow(needed: nat, capacity: nat)

  /** `memcpy` of the header and then of the payload into an output buffer of
      `capacity` bytes: the frame when it fits, an overflow otherwise. */
  function WriteFrame(capacity: nat, h: Header, payload: seq<byte>): (r: Result<seq<byte>, Overflow>)
    requires h.WellFormed()
    ensures r.Ok? <==> HeaderSize + |payload| <= capacity
    ensures r.Ok? ==> Decode(r.value) == Some((h, payload))
    ensures r.Err? ==> r.error == Overflow(HeaderSize + |payload|, capacity)
  {
    DecodeEncode(h, payload);
    if HeaderSize + |payload| <= capacity then Ok(Encode(h) + payload)
    else Err(Overflow(HeaderSize + |payload|, capacity))
  }
}
