/**
 * The gateway emulator: its configuration record, and the loop that receives
 * a device datagram, wraps it in a PUSH_DATA frame and forwards it to the
 * network server.
 *
 * Socket calls become events: a receive either fails or delivers a datagram
 * together with the two `rand()` draws the token is made from; a forward is a
 * `Datagram` value.
 */
module Gateway {
  import opened Wrappers
  import opened CStrings
  import opened Udp
  import Json
  import opened Semtech

  /** `char gateway_id[9]`: 8 characters and a terminator. */
  const IdFieldSize: nat := 9
  /** `char ttn_ip[16]`. */
  const IpFieldSize: nat := 16
  /** `unsigned char buffer[1024]`, the receive buffer. */
  const RecvBufferSize: nat := 1024
  /** `unsigned char semtech_packet[1024]`, the output buffer as written. */
  const AsWrittenFrameCapacity: nat := 1024
  /** An output buffer large enough for a header and a full receive buffer. */
  const CorrectedFrameCapacity: nat := HeaderSize + RecvBufferSize

  /** The members of the config object, as cJSON looked them up. */
  datatype ConfigJson = ConfigJson(gatewayId: Json.Value, gatewayPort: Json.Value,
                                   ttnIp: Json.Value, ttnPort: Json.Value)

  datatype ConfigError = InvalidConfig

  /** `GatewayConfig`, with its two `char` arrays as byte fields. */
  datatype GatewayConfig = GatewayConfig(gatewayId: seq<byte>, gatewayPort: int,
                                         ttnIp: seq<byte>, ttnPort: int)
  {
    predicate Valid() { |gatewayId| == IdFieldSize && |ttnIp| == IpFieldSize }
  }

  /** The type checks `read_config` makes before copying anything. */
  predicate WellTyped(j: ConfigJson) {
    j.gatewayId.JString? && j.gatewayPort.JNumber? && j.ttnIp.JString? && j.ttnPort.JNumber?
  }

  /** `read_config`: the struct starts zeroed, so the final byte of each
      `char` field stays NUL and both strings read back terminated, cut to 8
      and 15 characters. A member of the wrong type is an error. */
  function ReadConfig(j: ConfigJson): (r: Result<GatewayConfig, ConfigError>)
    ensures r.Ok? <==> WellTyped(j)
    ensures r.Ok? ==> r.value.Valid()
    ensures r.Ok? ==> ReadCString(r.value.gatewayId) == Some(Truncate(j.gatewayId.str, GatewayIdSize))
    ensures r.Ok? ==> ReadCString(r.value.ttnIp) == Some(Truncate(j.ttnIp.str, IpFieldSize - 1))
    ensures r.Ok? ==> r.value.gatewayPort == j.gatewayPort.valueint && r.value.ttnPort == j.ttnPort.valueint
  {
    if WellTyped(j) then
      Ok(GatewayConfig(StoreField(j.gatewayId.str, IdFieldSize, 0), j.gatewayPort.valueint,
                       StoreField(j.ttnIp.str, IpFieldSize, 0), j.ttnPort.valueint))
    else
      Err(InvalidConfig)
  }

  /** The 8 bytes `memcpy` takes from `config.gateway_id` into the header. */
  function GatewayIdBytes(config: GatewayConfig): (id: seq<byte>)
    requires config.Valid()
    ensures |id| == GatewayIdSize
  {
    config.gatewayId[..GatewayIdSize]
  }

  /** The id in every frame is the configured string cut to 8 characters when
      longer and padded with NULs to 8 bytes when shorter. */
  lemma GatewayIdTruncatedOrPadded(j: ConfigJson)
    requires WellTyped(j)
    ensures ReadConfig(j).Ok?
    ensures var id := j.gatewayId.str;
      GatewayIdBytes(ReadConfig(j).value)
        == if |id| >= GatewayIdSize then id[..GatewayIdSize] else id + Zeros(GatewayIdSize - |id|)
  {
  }

  /** Where every frame goes: `(ttn_ip, ttn_port)` from the config. */
  function ServerEndpoint(config: GatewayConfig): (e: Endpoint)
    ensures e.ipField == config.ttnIp
    ensures e.port == PortOf(config.ttnPort)
  {
    Endpoint(config.ttnIp, PortOf(config.ttnPort))
  }

  /** `recvfrom` into the 1024-byte buffer: a longer datagram is cut to the
      buffer, a shorter one is received whole. */
  function Receive(datagram: seq<byte>): (n: seq<byte>)
    ensures |n| == if |datagram| <= RecvBufferSize then |datagram| else RecvBufferSize
    ensures n == datagram[..|n|]
    ensures |datagram| <= RecvBufferSize ==> n == datagram
  {
    if |datagram| <= RecvBufferSize then datagram else datagram[..RecvBufferSize]
  }

  /** One pass of the loop's receive: a failure (`n < 0`), or a datagram and
      the two `rand()` results drawn for its token. */
  datatype Event = ReceiveError | Received(datagram: seq<byte>, draw0: nat, draw1: nat)

  /** The relay between two receives: the configuration and what it has sent so far. */
  datatype RelayState = RelayState(config: GatewayConfig, sent: seq<Datagram>)

  /** A successful receive: the bytes received and the token draws. */
  datatype Receipt = Receipt(payload: seq<byte>, draw0: nat, draw1: nat)

  /** The datagram forwarded for one receipt. */
  function ForwardOf(config: GatewayConfig, rc: Receipt): Datagram
    requires config.Valid()
  {
    Datagram(ServerEndpoint(config),
             PushDataFrame(TokenFromDraws(rc.draw0, rc.draw1), GatewayIdBytes(config), rc.payload))
  }

  /** One iteration of the loop with an output buffer of `capacity` bytes. A
      receive error changes nothing; a datagram adds exactly one frame, sent
      to the server, unless the frame does not fit the buffer. */
  function Step(capacity: nat, s: RelayState, e: Event): (r: Result<RelayState, Overflow>)
    requires s.config.Valid()
    ensures r.Err? <==> e.Received? && HeaderSize + |Receive(e.datagram)| > capacity
    ensures r.Ok? ==> r.value.config == s.config
    ensures e.ReceiveError? ==> r == Ok(s)
    ensures e.Received? && r.Ok? ==>
      |r.value.sent| == |s.sent| + 1 && r.value.sent[..|s.sent|] == s.sent
      && r.value.sent[|s.sent|].to == ServerEndpoint(s.config)
      && Decode(r.value.sent[|s.sent|].bytes)
         == Some((PushDataHeader(TokenFromDraws(e.draw0, e.draw1), GatewayIdBytes(s.config)), Receive(e.datagram)))
  {
    match e
    case ReceiveError => Ok(s)
    case Received(datagram, draw0, draw1) =>
      var header := PushDataHeader(TokenFromDraws(draw0, draw1), GatewayIdBytes(s.config));
      match WriteFrame(capacity, header, Receive(datagram))
      case Err(o) => Err(o)
      case Ok(frame) => Ok(s.(sent := s.sent + [Datagram(ServerEndpoint(s.config), frame)]))
  }

  /** The successful receives of a run, in order. */
  function Receipts(events: seq<Event>): seq<Receipt>
  {
    if |events| == 0 then []
    else
      Receipts(events[..|events| - 1]) +
      match events[|events| - 1]
      case ReceiveError => []
      case Received(d, draw0, draw1) => [Receipt(Receive(d), draw0, draw1)]
  }

  /** `rc` is what the successful receive `e` delivered. */
  predicate IsReceiptOf(e: Event, rc: Receipt) {
    e.Received? && rc == Receipt(Receive(e.datagram), e.draw0, e.draw1)
  }

  /** The positions of a run at which a receive succeeded, in increasing order. */
  function ReceivedIndices(events: seq<Event>): (idx: seq<nat>)
    ensures forall k | 0 <= k < |idx| :: idx[k] < |events| && events[idx[k]].Received?
    ensures forall j, k | 0 <= j < k < |idx| :: idx[j] < idx[k]
    ensures forall i | 0 <= i < |events| && events[i].Received? :: i in idx
  {
    if |events| == 0 then []
    else
      var n := |events| - 1;
      var front := ReceivedIndices(events[..n]);
      assert forall i | 0 <= i < n :: events[..n][i] == events[i];
      front + if events[n].Received? then [n] else []
  }

  /** The receipts match the successful receives one to one and in order:
      the k-th receipt carries the bytes and draws of the k-th successful
      receive. */
  lemma {:induction false} ReceiptsAreSuccessfulReceives(events: seq<Event>)
    ensures |Receipts(events)| == |ReceivedIndices(events)|
    ensures forall k | 0 <= k < |Receipts(events)| ::
      IsReceiptOf(events[ReceivedIndices(events)[k]], Receipts(events)[k])
  {
    if |events| > 0 {
      var n := |events| - 1;
      var front := events[..n];
      ReceiptsAreSuccessfulReceives(front);
      var rs, idx := Receipts(events), ReceivedIndices(events);
      forall k | 0 <= k < |rs| ensures IsReceiptOf(events[idx[k]], rs[k]) {
        if k < |Receipts(front)| {
          assert rs[k] == Receipts(front)[k];
          assert idx[k] == ReceivedIndices(front)[k];
          assert events[idx[k]] == front[idx[k]];
        }
      }
    }
  }

  /** Every received datagram's frame fits an output buffer of `capacity` bytes. */
  predicate AllFit(capacity: nat, events: seq<Event>) {
    forall i | 0 <= i < |events| :: events[i].Received? ==> HeaderSize + |Receive(events[i].datagram)| <= capacity
  }

  /** The receive/forward loop over a run of events, with an output buffer of
      `capacity` bytes. When every frame fits, it sends exactly one frame per
      successful receive, in order, each to the server endpoint, carrying the
      received bytes behind the header; otherwise it stops at the first frame
      that does not fit. A buffer of 13 + 1024 bytes never stops it. */
  method Relay(capacity: nat, config: GatewayConfig, events: seq<Event>) returns (r: Result<seq<Datagram>, Overflow>)
    requires config.Valid()
    ensures r.Err? <==> !AllFit(capacity, events)
    ensures capacity >= CorrectedFrameCapacity ==> r.Ok?
    ensures r.Ok? ==> |r.value| == |Receipts(events)|
    ensures r.Ok? ==> forall k | 0 <= k < |r.value| ::
      r.value[k].to == ServerEndpoint(config)
      && r.value[k].bytes == PushDataFrame(TokenFromDraws(Receipts(events)[k].draw0, Receipts(events)[k].draw1),
                                          GatewayIdBytes(config), Receipts(events)[k].payload)
  {
    var s := RelayState(config, []);
    var i := 0;
    while i < |events|
      invariant 0 <= i <= |events|
      invariant s.config == config
      invariant AllFit(capacity, events[..i])
      invariant |s.sent| == |Receipts(events[..i])|
      invariant forall k | 0 <= k < |s.sent| :: s.sent[k] == ForwardOf(config, Receipts(events[..i])[k])
    {
      assert events[..i + 1][..i] == events[..i];
      var next := Step(capacity, s, events[i]);
      if next.Err? {
        assert !AllFit(capacity, events) by {
          assert events[i].Received? && HeaderSize + |Receive(events[i].datagram)| > capacity;
        }
        return Err(next.error);
      }
      if events[i].Received? {
        var f := next.value.sent[|s.sent|];
        EncodeDecode(f.bytes);
        DecodeEncode(PushDataHeader(TokenFromDraws(events[i].draw0, events[i].draw1), GatewayIdBytes(config)),
                     Receive(events[i].datagram));
      }
      s := next.value;
      i := i + 1;
      assert AllFit(capacity, events[..i]) by {
        forall j | 0 <= j < i && events[..i][j].Received?
          ensures HeaderSize + |Receive(events[..i][j].datagram)| <= capacity
        {
          if j < i - 1 { assert events[..i][j] == events[..i - 1][j]; }
        }
      }
    }
    assert events[..i] == events;
    return Ok(s.sent);
  }

  /** As written, a datagram of 1012 to 1024 bytes is received whole but its
      frame does not fit the 1024-byte output buffer. */
  lemma LongDatagramOverflowsAsWritten(config: GatewayConfig, d: seq<byte>, draw0: nat, draw1: nat)
    requires config.Valid()
    requires AsWrittenFrameCapacity - HeaderSize < |d| <= RecvBufferSize
    ensures Receive(d) == d
    ensures Step(AsWrittenFrameCapacity, RelayState(config, []), Received(d, draw0, draw1))
         == Err(Overflow(HeaderSize + |d|, AsWrittenFrameCapacity))
  {
  }

  /** As written, a run forwards without overflow exactly when no receive
      delivers more than 1011 bytes. */
  lemma AsWrittenFitsIffShort(events: seq<Event>)
    ensures AllFit(AsWrittenFrameCapacity, events)
        <==> forall i | 0 <= i < |events| :: events[i].Received? ==> |Receive(events[i].datagram)| <= 1011
  {
  }

  /** With an output buffer of 13 + 1024 bytes every receive fits. */
  lemma CorrectedCapacityFitsEveryReceive(events: seq<Event>)
    ensures AllFit(CorrectedFrameCapacity, events)
  {
  }

  /** The gateway emulator from its configuration on: an ill-typed config
      forwards nothing; otherwise the relay runs with the configuration
      `read_config` built (here with the 13 + 1024-byte output buffer), and
      every frame carries the configured id cut or padded to 8 bytes and goes
      to the configured server, whose address reads back cut to 15
      characters. */
  method Run(j: ConfigJson, events: seq<Event>) returns (r: Result<seq<Datagram>, ConfigError>)
    ensures r.Err? <==> !WellTyped(j)
    ensures r.Ok? ==> |r.value| == |Receipts(events)|
    ensures r.Ok? ==> forall k | 0 <= k < |r.value| ::
      ReadCString(r.value[k].to.ipField) == Some(Truncate(j.ttnIp.str, IpFieldSize - 1))
      && r.value[k].to.port == PortOf(j.ttnPort.valueint)
      && r.value[k].bytes == PushDataFrame(TokenFromDraws(Receipts(events)[k].draw0, Receipts(events)[k].draw1),
                                          NCopy(j.gatewayId.str, GatewayIdSize), Receipts(events)[k].payload)
  {
    var config := ReadConfig(j);
    if config.Err? {
      return Err(config.error);
    }
    assert GatewayIdBytes(config.value) == NCopy(j.gatewayId.str, GatewayIdSize);
    var sent := Relay(CorrectedFrameCapacity, config.value, events);
    return Ok(sent.value);
  }
}
