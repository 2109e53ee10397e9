# LoRaWAN uplink emulators, modelled in Dafny

This project models the two C programs of a small LoRaWAN uplink simulator:

- the **gateway emulator** (`emulador_gateway.c`), which reads its
  configuration (`gateway_id`, `gateway_port`, `ttn_ip`, `ttn_port`), then
  loops forever: it receives a UDP datagram from a device, puts a 13-byte
  `SemtechHeader` in front of it, and forwards the frame to the network
  server at `(ttn_ip, ttn_port)`;
- the **device emulator** (`emulador_dispositivos.c`), which reads an array
  of device records (`devEUI`, `appEUI`, `appKey`, `mode`, `gateway_ip`,
  `gateway_port`), then, device after device, encrypts the fixed payload
  "HelloLoRaWAN" with AES-CBC keyed by the device's `appKey` and sends the
  first 12 bytes of the output buffer to the device's gateway.

The frame follows the PUSH_DATA packet of section 3 (upstream protocol) of
Semtech's packet forwarder `PROTOCOL.TXT` in shape only: the code writes a
two-byte identifier `0x00 0x01` at bytes 3-4 and the gateway id at bytes 5-12,
so its header is 13 bytes, where the protocol's is 12. The model follows the
code.

Modules, one per concern:

| file | module | contents |
|---|---|---|
| wrappers.dfy | `Wrappers` | `Option`, `Result` |
| cstrings.dfy | `CStrings` | bytes, C strings, `strncpy` into a fixed `char` field, reading a field back |
| udp.dfy | `Udp` | endpoints, datagrams, the `int` to `uint16_t` port conversion |
| json.dfy | `Json` | the typed values the cJSON lookups return |
| semtech.dfy | `Semtech` | the header, its encoding and decoding, the token, the frame and its buffer |
| gateway.dfy | `Gateway` | the gateway configuration and the receive/forward loop |
| devices.dfy | `Devices` | the device records, the cipher call, the per-device send loop, the whole program |

Sockets become values: a receive is an `Event` (an error, or a datagram and
the two `rand()` results its token is drawn from), and a send is a
`Datagram` (endpoint and bytes). The infinite gateway loop is modelled over
any finite sequence of events. AES is a parameter `aes: CipherCall ->
CipherEffect`: the model fixes exactly which arguments reach mbedtls and how
the output buffer around it is used, and nothing about the cipher itself.

Fixed fields are modelled byte for byte. `strncpy(field, src, sizeof(field) -
1)` writes every byte of the field except the last; the gateway's struct is
zero-initialised, so that byte is NUL, but the device array comes from
`malloc`, so that byte is whatever the memory held (`Residue`). Reading a
field back (`ReadCString`) yields the bytes before its first NUL, or `None`
when the field holds no NUL and a C reader would run past it. A source of
capacity - 1 characters or more therefore leaves a device field
unterminated unless the leftover byte happens to be NUL; that covers the
16-character `devEUI`/`appEUI`, the 32-character `appKey`, both "OTAA" and
"ABP" in the 4-byte `mode`, and a 15-character `gateway_ip`.

Where the code departs from LoRaWAN practice (a 16-byte AppKey written as 32 hex characters, AES keys of 128, 192 or 256 bits, a padded or block-aligned plaintext, a fresh IV per message), the model follows the code:
the gateway id is truncated to 8 characters rather than rejected when
longer; the AES key is the `appKey`'s ASCII hex characters with a length of
`strlen(appKey) * 8` bits, not 16 decoded bytes, and an invalid key length is
not reported; the 12-byte plaintext is passed to CBC unpadded; the IV is
always zero; and no error is isolated per device.

## Model

| member | source | states |
|---|---|---|
| CStrings.NCopy | emulador_gateway.c:57 | `strncpy(dst, src, n)` writes exactly `n` bytes: the source's characters up to `n`, then NUL padding |
| CStrings.StoreField | emulador_dispositivos.c:56-60 | a field of capacity `c` after `strncpy(field, src, c - 1)` keeps its final byte untouched and reads back as the source when the source is shorter than c - 1; otherwise as its first c - 1 characters if that final byte is NUL, and unterminated if it is not |
| CStrings.ReadCString | emulador_dispositivos.c:128-131 | a C reader of a field sees exactly the bytes before the field's first NUL, and finds no string inside the field exactly when it holds no NUL |
| CStrings.ReadStopsAtFirstNul | emulador_dispositivos.c:128-131 | a NUL right after a NUL-free prefix ends the read there, whatever follows |
| CStrings.CopyThenByteReadsBack | emulador_dispositivos.c:56-60 | the n bytes `strncpy` writes followed by any one byte read back as the source cut to n characters, terminated whenever the source is shorter than n or that byte is NUL, and unterminated otherwise |
| CStrings.StoredFieldBounded | emulador_dispositivos.c:10-17 | a string read back from a field has at most capacity - 1 characters; an unterminated field needs a long source and a non-NUL leftover byte |
| Udp.PortOf | emulador_gateway.c:92 | the port placed in `sin_port` lies in 0..65535 and equals the configured `int` modulo 2^16 |
| Semtech.Encode | emulador_gateway.c:9-14 | a `SemtechHeader` copied out with `memcpy` is exactly 13 bytes, one per `uint8_t` field |
| Semtech.Decode | emulador_gateway.c:165-173 | a frame splits into a header and a payload exactly when it has at least 13 bytes |
| Semtech.DecodeEncode | emulador_gateway.c:165-173 | splitting the frame built from a header and a payload gives back that header and that payload |
| Semtech.EncodeDecode | emulador_gateway.c:165-173 | every frame of 13 bytes or more is its header's bytes followed by its payload |
| Semtech.PushDataFrame | emulador_gateway.c:156-173 | the forwarded frame has 13 + n bytes: byte 0 is 2, bytes 1-2 the token, bytes 3-4 `0x00 0x01`, bytes 5-12 the gateway id, and the n received bytes unchanged from byte 13 |
| Semtech.TokenOnlyAffectsBytes1And2 | emulador_gateway.c:160 | two frames built with different tokens agree on every byte except bytes 1 and 2 |
| Semtech.EveryTokenIsReachable | emulador_gateway.c:71-75 | every pair of bytes is a possible token: two draws of `rand() % 256` can produce any token |
| Semtech.WriteFrame | emulador_gateway.c:165-173 | copying header and payload into a buffer of `capacity` bytes succeeds exactly when 13 + n fits, then decodes to that header and payload, and otherwise reports the bytes needed |
| Gateway.ReadConfig | emulador_gateway.c:25-68 | the config is accepted exactly when all four members have the right type; then the id reads back as the configured string cut to 8 characters, the server address cut to 15, both terminated, and the ports are copied |
| Gateway.GatewayIdTruncatedOrPadded | emulador_gateway.c:57 | the id in every frame is the configured string's first 8 characters when it is longer, and the string padded with NULs to 8 bytes when it is shorter |
| Gateway.Receive | emulador_gateway.c:143-147 | a receive delivers the datagram whole when it has at most 1024 bytes, and exactly its first 1024 bytes otherwise |
| Gateway.Step | emulador_gateway.c:142-177 | a receive error changes nothing; a successful receive appends exactly one datagram, to the server endpoint, holding the PUSH_DATA header and the received bytes, unless the frame overflows the buffer; the config is never changed |
| Gateway.ReceivedIndices | emulador_gateway.c:147-151 | the positions at which a receive succeeded, each exactly once, in increasing order, and no position where it failed |
| Gateway.ReceiptsAreSuccessfulReceives | emulador_gateway.c:147-151 | the receives that feed forwarding match the successful ones one to one and in order: the k-th carries the bytes and token draws of the k-th successful receive |
| Gateway.Relay | emulador_gateway.c:142-177 | over a run of receives, one frame per successful receive, in receive order, each to the server endpoint, with the token, gateway id and received bytes of that receive; it stops exactly when some frame does not fit, and never with a 13 + 1024-byte buffer |
| Gateway.LongDatagramOverflowsAsWritten | emulador_gateway.c:143-172 | a datagram of 1012 to 1024 bytes is received whole, and its frame overflows the 1024-byte output buffer |
| Gateway.AsWrittenFitsIffShort | emulador_gateway.c:156-172 | with the 1024-byte output buffer, a run fits exactly when no receive delivers more than 1011 bytes |
| Gateway.CorrectedCapacityFitsEveryReceive | emulador_gateway.c:143-156 | with an output buffer of 13 + 1024 bytes every receive fits |
| Gateway.Run | emulador_gateway.c:109-177 | an ill-typed config forwards nothing; otherwise one frame per successful receive, in order, each to the configured server address cut to 15 characters and port modulo 2^16, carrying the token, the configured id cut or padded to 8 bytes, and the received bytes |
| Devices.StoreDevice | emulador_dispositivos.c:56-61 | each stored field reads back as its source cut to capacity - 1, terminated only if the source is shorter or the `malloc`'d leftover byte is NUL; the port is copied |
| Devices.StoredFieldsBounded | emulador_dispositivos.c:10-17 | terminated fields hold at most 16 (devEUI, appEUI), 32 (appKey), 3 (mode) and 15 (gateway_ip) characters, and strictly shorter sources read back whole |
| Devices.LongSourceLeavesFieldUnterminated | emulador_dispositivos.c:43-56 | a devEUI of 16 characters or more is unterminated exactly when the unwritten byte is not NUL |
| Devices.ModeOtaaStoredAsOta | emulador_dispositivos.c:59 | "OTAA" is stored as "OTA", reads back as "OTA" only if the unwritten byte is NUL, and never reads back as "OTAA" |
| Devices.FirstIllTyped | emulador_dispositivos.c:45-65 | the index found is the first entry failing the type checks, and none is found exactly when every entry passes |
| Devices.ReadConfig | emulador_dispositivos.c:20-71 | the device array fails exactly when some entry is ill-typed, naming the first one; otherwise it holds one stored record per entry, in array order |
| Devices.KeyString | emulador_dispositivos.c:77 | the key `strlen` measures is the field's content when the field is terminated, and otherwise at least the whole 33-byte field |
| Devices.UplinkCall | emulador_dispositivos.c:74-83 | each encryption gets as key the NUL-free string `strlen` measures at the appKey field, with a key length of exactly 8 bits per character of it: the stored string when the field is terminated, a string starting with the whole 33-byte field (so 264 bits or more) when it is not; an all-zero 16-byte IV on every call; and the 12 bytes of "HelloLoRaWAN" |
| Devices.KeyBitsFromAppKey | emulador_dispositivos.c:77 | a key shorter than 32 characters is passed whole with 8 bits per character; a 32-character key gives 256 bits when its field is terminated, and more than 256 when it is not |
| Devices.CipherBuffer | emulador_dispositivos.c:135 | the output buffer keeps 128 bytes whatever the cipher writes: the cipher's bytes where it wrote, the initialiser's zeros elsewhere |
| Devices.Uplink | emulador_dispositivos.c:133-148 | a device sends 12 bytes, the start of the zeroed output buffer after encryption, to its own `gateway_ip:gateway_port` |
| Devices.FixedIvDeterminism | emulador_dispositivos.c:79-80 | with the IV always zero, devices with the same key string send the same bytes |
| Devices.CipherStatusIgnored | emulador_dispositivos.c:138 | ciphers that write the same bytes yield the same datagram whatever they return |
| Devices.SendAll | emulador_dispositivos.c:126-149 | devices are handled in array order, exactly one datagram each, to that device's endpoint |
| Devices.Simulate | emulador_dispositivos.c:122-149 | the configuration is read in full before any send: an ill-typed entry ends the program with nothing sent, and otherwise each entry sends exactly once, in order |

## Left out

- Socket creation, `bind`, `sendto`, `recvfrom`, `close`, `inet_addr` and `inet_ntoa`: operating-system I/O, reduced to receive events and datagram values. An endpoint keeps the `char[16]` field `inet_addr` would parse; the dotted-quad parse and `htons` byte order are not modelled.
- Failures of `socket` and `sendto`: both programs exit on them; the model's sends always succeed.
- The sender address `recvfrom` reports: it is only printed.
- cJSON parsing and reading the config files: a foreign library. The model starts from the looked-up members, typed as string (`valuestring`), number (`valueint`) or anything else.
- AES (`mbedtls_aes_setkey_enc`, `mbedtls_aes_crypt_cbc`): a foreign library, kept as an uninterpreted function of its arguments, including its behaviour on the 12-byte input that is not a whole block.
- `rand()` and its seeding: a token is made from two arbitrary non-negative draws.
- Logging (`printf`, `perror`), the command-line argument check and exit codes.
- simuladortago.c: a console-to-HTTP uploader with no protocol or state logic; it is not part of this model.
- Devices.KeyString: when the `appKey` field is unterminated, the characters `strlen` reads beyond it (in the real layout, the `mode` field and what follows) are an abstract `keyOverrun` string, not derived from the struct layout.
- Gateway.Run: runs the relay with the corrected 13 + 1024-byte output buffer of the finding below; with the 1024-byte buffer as written, a receive of more than 1011 bytes overflows instead, as `Gateway.Relay` and `Gateway.AsWrittenFitsIffShort` state.
- Gateway.Relay: a frame that overflows the buffer stops the run, whereas the program as written copies past the buffer with undefined behaviour.

## Findings

| source | as written | input that shows it | evidently intended | confidence | as-written member | corrected member |
|---|---|---|---|---|---|---|
| emulador_gateway.c:156 | the frame buffer `semtech_packet[1024]` receives 13 + n bytes, while `recvfrom` may deliver n = 1024 into `buffer[1024]` | a datagram of 1012 bytes: 1025 bytes are copied into 1024 | an output buffer of 13 + 1024 bytes, so every receivable datagram is forwarded whole | not executed; high | Gateway.LongDatagramOverflowsAsWritten | Gateway.CorrectedCapacityFitsEveryReceive |
