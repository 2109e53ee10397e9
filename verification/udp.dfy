/** The abstract UDP send both emulators perform: one datagram to one endpoint. */
module Udp {
  import opened CStrings

  /** `sin_port` is a 16-bit field: the configured `int` port is converted to
      `uint16_t`, which keeps it modulo 2^16. */
  function PortOf(port: int): (p: int)
    ensures 0 <= p < 0x1_0000
    ensures (port - p) % 0x1_0000 == 0
    ensures 0 <= port < 0x1_0000 ==> p == port
  {
    port % 0x1_0000
  }

  /** A destination: the `char[16]` field `inet_addr` parses, and the port. */
  datatype Endpoint = Endpoint(ipField: seq<byte>, port: int)

  /** One `sendto` of `bytes` to `to`. */
  datatype Datagram = Datagram(to: Endpoint, bytes: seq<byte>)
}
