/**
 * The device emulator: the per-device configuration records and the loop
 * that, device after device, encrypts a fixed payload with the device's
 * `appKey` and sends the result to the device's gateway.
 *
 * The device array is `malloc`'d and never zeroed, so the final byte of each
 * `char` field, which `strncpy(..., sizeof - 1)` does not write, keeps an
 * arbitrary value: a `Residue` names those bytes. AES is a parameter: a
 * function from the arguments of the mbedtls calls to their effect.
 */
module Devices {
  import opened Wrappers
  import opened CStrings
  import opened Udp
  import opened Json

  /** `char devEUI[17]`. */
  const DevEuiSize: nat := 17
  /** `char appEUI[17]`. */
  const AppEuiSize: nat := 17
  /** `char appKey[33]`. */
  const AppKeySize: nat := 33
  /** `char mode[4]`. */
  const ModeSize: nat := 4
  /** `char gateway_ip[16]`. */
  const IpFieldSize: nat := 16
  /** `unsigned char encrypted_payload[128]`. */
  const CipherBufferSize: nat := 128
  /** `unsigned char iv[16]`. */
  const IvSize: nat := 16

  /** The payload every device sends: "HelloLoRaWAN". */
  const Plaintext: CString := [0x48, 0x65, 0x6C, 0x6C, 0x6F, 0x4C, 0x6F, 0x52, 0x61, 0x57, 0x41, 0x4E]
  /** "OTAA". */
  const Otaa: CString := [0x4F, 0x54, 0x41, 0x41]
  /** "OTA". */
  const Ota: CString := [0x4F, 0x54, 0x41]

  /** The members of one array entry, as cJSON looked them up. */
  datatype DeviceJson = DeviceJson(devEui: Value, appEui: Value, appKey: Value,
                                   mode: Value, gatewayIp: Value, gatewayPort: Value)

  /** The type checks `read_config` makes on an entry. */
  predicate WellTyped(e: DeviceJson) {
    e.devEui.JString? && e.appEui.JString? && e.appKey.JString?
    && e.mode.JString? && e.gatewayIp.JString? && e.gatewayPort.JNumber?
  }

  /** What uninitialised memory holds for one device: the final byte of each
      `char` field, and the characters a C reader finds after the `appKey`
      field, up to the next NUL, when that field holds none. */
  datatype Residue = Residue(devEui: byte, appEui: byte, appKey: byte, mode: byte,
                             gatewayIp: byte, keyOverrun: CString)

  /** `DeviceConfig`, with its `char` arrays as byte fields. */
  datatype DeviceConfig = DeviceConfig(devEui: seq<byte>, appEui: seq<byte>, appKey: seq<byte>,
                                       mode: seq<byte>, gatewayIp: seq<byte>, gatewayPort: int)
  {
    predicate Valid() {
      |devEui| == DevEuiSize && |appEui| == AppEuiSize && |appKey| == AppKeySize
      && |mode| == ModeSize && |gatewayIp| == IpFieldSize
    }
  }

  /** The copies into `devices[i]`: each string field reads back as its
      source cut to capacity - 1, terminated only when the source is shorter
      than that or the unwritten final byte happens to be NUL. */
  function StoreDevice(e: DeviceJson, res: Residue): (d: DeviceConfig)
    requires WellTyped(e)
    ensures d.Valid()
    ensures ReadCString(d.devEui) == ReadBack(e.devEui.str, DevEuiSize, res.devEui)
    ensures ReadCString(d.appEui) == ReadBack(e.appEui.str, AppEuiSize, res.appEui)
    ensures ReadCString(d.appKey) == ReadBack(e.appKey.str, AppKeySize, res.appKey)
    ensures ReadCString(d.mode) == ReadBack(e.mode.str, ModeSize, res.mode)
    ensures ReadCString(d.gatewayIp) == ReadBack(e.gatewayIp.str, IpFieldSize, res.gatewayIp)
    ensures d.gatewayPort == e.gatewayPort.valueint
  {
    DeviceConfig(StoreField(e.devEui.str, DevEuiSize, res.devEui),
                 StoreField(e.appEui.str, AppEuiSize, res.appEui),
                 StoreField(e.appKey.str, AppKeySize, res.appKey),
                 StoreField(e.mode.str, ModeSize, res.mode),
                 StoreField(e.gatewayIp.str, IpFieldSize, res.gatewayIp),
                 e.gatewayPort.valueint)
  }

  /** A terminated field never holds more than capacity - 1 characters
      (devEUI and appEUI 16, appKey 32, mode 3, gateway_ip 15), and a source
      strictly shorter than that always reads back whole. */
  lemma StoredFieldsBounded(e: DeviceJson, res: Residue)
    requires WellTyped(e)
    ensures var d := StoreDevice(e, res);
      && (ReadCString(d.devEui).Some? ==> |ReadCString(d.devEui).value| <= 16)
      && (ReadCString(d.appEui).Some? ==> |ReadCString(d.appEui).value| <= 16)
      && (ReadCString(d.appKey).Some? ==> |ReadCString(d.appKey).value| <= 32)
      && (ReadCString(d.mode).Some? ==> |ReadCString(d.mode).value| <= 3)
      && (ReadCString(d.gatewayIp).Some? ==> |ReadCString(d.gatewayIp).value| <= 15)
    ensures var d := StoreDevice(e, res);
      && (|e.devEui.str| < 16 ==> ReadCString(d.devEui) == Some(e.devEui.str))
      && (|e.appEui.str| < 16 ==> ReadCString(d.appEui) == Some(e.appEui.str))
      && (|e.appKey.str| < 32 ==> ReadCString(d.appKey) == Some(e.appKey.str))
      && (|e.mode.str| < 3 ==> ReadCString(d.mode) == Some(e.mode.str))
      && (|e.gatewayIp.str| < 15 ==> ReadCString(d.gatewayIp) == Some(e.gatewayIp.str))
  {
  }

  /** A source of capacity - 1 characters or more leaves the field without a
      terminator unless the unwritten byte happens to be NUL: a 16-character
      devEUI, the length the format expects, is one. */
  lemma LongSourceLeavesFieldUnterminated(e: DeviceJson, res: Residue)
    requires WellTyped(e)
    requires |e.devEui.str| >= DevEuiSize - 1
    ensures ReadCString(StoreDevice(e, res).devEui).None? <==> res.devEui != 0
  {
  }

  /** `mode` is `char[4]` copied with limit 3: "OTAA" is stored as "OTA",
      and is terminated only if the unwritten byte happens to be NUL. It never
      reads back as "OTAA". */
  lemma ModeOtaaStoredAsOta(e: DeviceJson, res: Residue)
    requires WellTyped(e) && e.mode.str == Otaa
    ensures StoreDevice(e, res).mode[..3] == Ota
    ensures ReadCString(StoreDevice(e, res).mode) == if res.mode == 0 then Some(Ota) else None
    ensures ReadCString(StoreDevice(e, res).mode) != Some(Otaa)
  {
  }

  /** The index of the first entry that fails the type checks, if any. */
  function FirstIllTyped(entries: seq<DeviceJson>): (r: Option<nat>)
    ensures r.None? <==> forall i | 0 <= i < |entries| :: WellTyped(entries[i])
    ensures r.Some? ==> r.value < |entries| && !WellTyped(entries[r.value])
                        && forall i | 0 <= i < r.value :: WellTyped(entries[i])
  {
    if |entries| == 0 then None
    else if !WellTyped(entries[0]) then Some(0)
    else
      match FirstIllTyped(entries[1..])
      case None =>
        assert forall j | 1 <= j < |entries| :: entries[j] == entries[1..][j - 1];
        None
      case Some(i) =>
        assert entries[1..][i] == entries[i + 1];
        assert forall j | 1 <= j < i + 1 :: entries[j] == entries[1..][j - 1];
        Some(i + 1)
  }

  /** `read_config` on the device array: the index of the first ill-typed
      entry, which ends the program, or one stored record per entry, in
      array order. */
  function ReadConfig(entries: seq<DeviceJson>, memory: seq<Residue>): (r: Result<seq<DeviceConfig>, nat>)
    requires |memory| == |entries|
    ensures r.Err? <==> exists i | 0 <= i < |entries| :: !WellTyped(entries[i])
    ensures r.Err? ==> r.error < |entries| && !WellTyped(entries[r.error])
                       && forall i | 0 <= i < r.error :: WellTyped(entries[i])
    ensures r.Ok? ==> |r.value| == |entries|
    ensures r.Ok? ==> forall i | 0 <= i < |entries| ::
                        WellTyped(entries[i]) && r.value[i] == StoreDevice(entries[i], memory[i])
  {
    match FirstIllTyped(entries)
    case Some(i) => Err(i)
    case None => Ok(seq(|entries|, i requires 0 <= i < |entries| => StoreDevice(entries[i], memory[i])))
  }

  /** The arguments of one `encrypt_payload`: the key bytes and key length
      given to `mbedtls_aes_setkey_enc`, and the IV, length and input given to
      `mbedtls_aes_crypt_cbc`. */
  datatype CipherCall = CipherCall(key: seq<byte>, keyBits: nat, iv: seq<byte>, length: nat, input: seq<byte>)

  /** What the mbedtls calls do: a return code, and the bytes written at the
      start of the output buffer. */
  datatype CipherEffect = CipherEffect(status: int, written: seq<byte>)

  /** AES, left uninterpreted. */
  type Aes = CipherCall -> CipherEffect

  /** The key string `strlen` measures at `devices[i].appKey`: the field's
      content when it is terminated, and otherwise the whole field followed by
      whatever comes after it up to a NUL. */
  function KeyString(d: DeviceConfig, keyOverrun: CString): (k: CString)
    requires d.Valid()
    ensures ReadCString(d.appKey).Some? ==> k == ReadCString(d.appKey).value
    ensures ReadCString(d.appKey).None? ==> |k| >= AppKeySize && k[..AppKeySize] == d.appKey
  {
    match ReadCString(d.appKey)
    case Some(s) => s
    case None => d.appKey + keyOverrun
  }

  /** The call `encrypt_payload` makes for a device: the key is the NUL-free
      string `strlen` measures at the appKey field, passed with a length of
      `strlen(appKey) * 8` bits; that string is the stored one when the field
      is terminated and starts with the whole 33-byte field when it is not.
      The IV is all zero on every call; the input is the 12 bytes of
      "HelloLoRaWAN". */
  function UplinkCall(d: DeviceConfig, keyOverrun: CString): (c: CipherCall)
    requires d.Valid()
    ensures ReadCString(d.appKey).Some? ==>
      c.key == ReadCString(d.appKey).value && c.keyBits == 8 * |ReadCString(d.appKey).value|
    ensures ReadCString(d.appKey).None? ==>
      |c.key| >= AppKeySize && c.key[..AppKeySize] == d.appKey && c.keyBits >= 8 * AppKeySize
    ensures NoNul(c.key) && c.keyBits == 8 * |c.key|
    ensures |c.iv| == IvSize && forall i | 0 <= i < IvSize :: c.iv[i] == 0
    ensures c.length == |c.input| == 12 && c.input == Plaintext
  {
    var key := KeyString(d, keyOverrun);
    CipherCall(key, |key| * 8, Zeros(IvSize), |Plaintext|, Plaintext)
  }

  /** The key length handed to mbedtls: 8 bits per hex character, so 256 for
      a 32-character key whose field is terminated, and above 256, which is
      no AES key length, when the field is not. */
  lemma KeyBitsFromAppKey(e: DeviceJson, res: Residue)
    requires WellTyped(e)
    ensures var c := UplinkCall(StoreDevice(e, res), res.keyOverrun);
      && (|e.appKey.str| < AppKeySize - 1 ==> c.key == e.appKey.str && c.keyBits == 8 * |e.appKey.str|)
      && (|e.appKey.str| >= AppKeySize - 1 && res.appKey == 0 ==> c.key == e.appKey.str[..32] && c.keyBits == 256)
      && (|e.appKey.str| >= AppKeySize - 1 && res.appKey != 0 ==> c.keyBits >= 8 * AppKeySize)
  {
  }

  /** The 128-byte output buffer: zeroed by its initialiser, then
      overwritten from the start by the bytes the cipher writes; the cipher
      cannot grow it. */
  function CipherBuffer(written: seq<byte>): (b: seq<byte>)
    ensures |b| == CipherBufferSize
    ensures forall i | 0 <= i < CipherBufferSize :: b[i] == if i < |written| then written[i] else 0
  {
    var m := if |written| < CipherBufferSize then |written| else CipherBufferSize;
    written[..m] + Zeros(CipherBufferSize - m)
  }

  /** The datagram a device sends: to its own `gateway_ip:gateway_port`, the
      first `strlen("HelloLoRaWAN") = 12` bytes of the zeroed output buffer
      after encryption; bytes the cipher did not write stay zero, and the
      cipher's return code plays no part. */
  function Uplink(d: DeviceConfig, keyOverrun: CString, aes: Aes): (g: Datagram)
    requires d.Valid()
    ensures g.to == Endpoint(d.gatewayIp, PortOf(d.gatewayPort))
    ensures |g.bytes| == |Plaintext| == 12
    ensures forall i | 0 <= i < 12 ::
      g.bytes[i] == if i < |aes(UplinkCall(d, keyOverrun)).written| then aes(UplinkCall(d, keyOverrun)).written[i] else 0
  {
    Datagram(Endpoint(d.gatewayIp, PortOf(d.gatewayPort)),
             CipherBuffer(aes(UplinkCall(d, keyOverrun)).written)[..|Plaintext|])
  }

  /** With the IV fixed, two devices whose key strings are equal send equal
      bytes: the ciphertext is a function of the key and the plaintext alone. */
  lemma FixedIvDeterminism(d1: DeviceConfig, o1: CString, d2: DeviceConfig, o2: CString, aes: Aes)
    requires d1.Valid() && d2.Valid()
    requires KeyString(d1, o1) == KeyString(d2, o2)
    ensures Uplink(d1, o1, aes).bytes == Uplink(d2, o2, aes).bytes
  {
  }

  /** The encryption's return code is ignored: two ciphers that write the same
      bytes yield the same datagram, whatever they return. */
  lemma CipherStatusIgnored(d: DeviceConfig, o: CString, aes1: Aes, aes2: Aes)
    requires d.Valid()
    requires aes1(UplinkCall(d, o)).written == aes2(UplinkCall(d, o)).written
    ensures Uplink(d, o, aes1) == Uplink(d, o, aes2)
  {
  }

  /** The send loop of `main`: devices in array order, exactly one datagram
      each, to that device's own endpoint. */
  method SendAll(devices: seq<DeviceConfig>, memory: seq<Residue>, aes: Aes) returns (sent: seq<Datagram>)
    requires |memory| == |devices|
    requires forall i | 0 <= i < |devices| :: devices[i].Valid()
    ensures |sent| == |devices|
    ensures forall i | 0 <= i < |devices| :: sent[i] == Uplink(devices[i], memory[i].keyOverrun, aes)
  {
    sent := [];
    var i := 0;
    while i < |devices|
      invariant 0 <= i <= |devices|
      invariant |sent| == i
      invariant forall k | 0 <= k < i :: sent[k] == Uplink(devices[k], memory[k].keyOverrun, aes)
    {
      sent := sent + [Uplink(devices[i], memory[i].keyOverrun, aes)];
      i := i + 1;
    }
  }

  /** How the program ends. */
  datatype Status = Completed | ConfigError(index: nat)

  /** The whole device emulator: configuration is read completely before any
      device sends; an ill-typed entry stops the program with nothing sent;
      otherwise every entry sends once, in order. */
  method Simulate(entries: seq<DeviceJson>, memory: seq<Residue>, aes: Aes) returns (sent: seq<Datagram>, status: Status)
    requires |memory| == |entries|
    ensures status.ConfigError? <==> exists i | 0 <= i < |entries| :: !WellTyped(entries[i])
    ensures status.ConfigError? ==> sent == [] && status.index < |entries| && !WellTyped(entries[status.index])
    ensures status.Completed? ==> |sent| == |entries|
    ensures status.Completed? ==> forall i | 0 <= i < |entries| ::
      WellTyped(entries[i]) && sent[i] == Uplink(StoreDevice(entries[i], memory[i]), memory[i].keyOverrun, aes)
  {
    var config := ReadConfig(entries, memory);
    if config.Err? {
      return [], ConfigError(config.error);
    }
    sent := SendAll(config.value, memory, aes);
    status := Completed;
  }
}
