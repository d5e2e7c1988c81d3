# APNS gateway client: a Dafny model

This project models the connection and framing core of a Ruby client for
Apple's legacy binary push-notification service (`lib/apns/core.rb`). The
client keeps a registry of applications, each with a gateway host, a port and
a TLS context loaded from a PEM file. It packs notification payloads into
binary frames and writes them to the gateway. It also reads the feedback
service's stream of 38-byte records about device tokens that are no longer
valid.

The model keeps the byte-exact logic and the registry's state changes, and
replaces the network and OpenSSL with parameters:

- `Bytes`: big-endian integers (`pack`/`unpack` directives `N` and `n`) and
  lower-case hexadecimal (`H*`) over `Byte = 0..255`.
- `Frames`: the frame encoder, `[2][32-bit big-endian length][payload]` per
  notification, concatenated. Its partner is the gateway-side decoder
  `DecodeFrames`, which is not part of the client.
- `Feedback`: the `unpack('N1n1H*')` of each chunk read from the feedback
  stream, and the read loop. Its partner is the service-side encoder
  `EncodeStream`.
- `Endpoints`: the sandbox and production gateway hosts, port 2195, and the
  feedback endpoint. That endpoint is the host with `gsub('gateway','feedback')`
  applied, on port 2196.
- `Registry`: `Application`, `set_cert` and its ordered failure points, and the
  registry setters. The filesystem and OpenSSL's parsers are an `Environment`
  value that says which paths are readable and which PEM texts parse.
- `Client`: `send_notifications`, `send_notification` and `feedback`. The
  outcome of the TCP connect and TLS handshake is a boolean parameter. A send
  returns the endpoint dialled and the list of buffers written. A feedback
  read takes the bytes the service sends as a parameter. An application
  whose TLS context is still `nil` fails once the TCP socket is open, because
  `SSLSocket.new(sock, nil)` raises.

Where the code does something other than what a client of this service is
expected to do, the model follows the code:

- Feedback short tail. A trailing partial feedback chunk is expected to be
  discarded. In the code, `read(38)` returns the 1 to 37 remaining bytes and
  the loop unpacks them anyway. With fewer than 4 bytes the timestamp is
  `nil` and `Time.at` raises (`MalformedFeedback`). With 4 or more bytes a
  record is reported whose token is the hex of what `H*` finds. That is
  bytes 6 onward, or byte 4 alone for a 5-byte tail, because `n` yields `nil`
  without consuming a lone byte. See `Feedback.UnpackChunk` and
  `Feedback.DecodeStream`.
- `set_cert` is not atomic. A failed reload is expected to leave the
  default identity in its prior state. In the code, a fresh `SSLContext`
  replaces the old one before the certificate is parsed. So an unparsable
  certificate leaves an empty context behind, and an undecryptable key leaves
  a certificate without a key. Only the two path checks fail before anything
  is touched. See `Registry.SetCert` and `Registry.SetCertIdentity`.
- Unset path. `unless pem_path` rejects `nil` and `false`, which the model
  writes as `None`. Any string, the empty one included, goes on to
  `File.exist?`; the empty path fails there as missing.
- The send loop writes the packed buffer once per notification, where a
  client is expected to write the batch once. See "Findings".

## Model

| member | source | states |
|---|---|---|
| `Bytes.ToBE` | lib/apns/core.rb:84 | the length field is `w` big-endian bytes whose big-endian value is the length |
| `Bytes.ToBEFromBE` | lib/apns/core.rb:84 | every byte string is the big-endian encoding of its own value, so `ToBE` and `FromBE` are inverse |
| `Bytes.Hex` | lib/apns/core.rb:96 | `H*` gives two lower-case hexadecimal digits per byte |
| `Bytes.UnHexHex` | lib/apns/core.rb:96 | the hexadecimal token reads back to the original bytes |
| `Bytes.HexUnHex` | lib/apns/core.rb:96 | every string that reads back as bytes is exactly their rendering, so the hex form is canonical |
| `Frames.LengthField` | lib/apns/core.rb:84 | `pack('N')` of a length is 4 bytes whose big-endian value is the length mod 2^32 |
| `Frames.Frame` | lib/apns/core.rb:84 | a frame of an n-byte payload is 5 + n bytes: command byte 2, the length field of n, then the payload verbatim |
| `Frames.EncodeFrames` | lib/apns/core.rb:76-88 | the packed buffer's length is the sum over the payloads of 5 + payload length |
| `Frames.EncodeFramesEmpty` | lib/apns/core.rb:77-87 | packing no notifications gives the empty buffer |
| `Frames.EncodeFramesAppend` | lib/apns/core.rb:79-85 | packing `a ++ b` is packing `a` followed by packing `b` |
| `Frames.DecodeEncodeFrames` | lib/apns/core.rb:76-88 | reading the packed buffer frame by frame recovers every payload, in order, when each length is below 2^32 |
| `Frames.EncodeDecodeFrames` | lib/apns/core.rb:76-88 | every stream the frame reader accepts is exactly the packed buffer of what it reads |
| `Frames.SingleFrameExample` | lib/apns/core.rb:84 | payload `01 02 03` is sent as `02 00 00 00 03 01 02 03` |
| `Frames.TwoFramesExample` | lib/apns/core.rb:79-85 | payloads of 3 and 5 bytes become two frames back to back, each with its own length and no separator |
| `Feedback.UnpackChunk` | lib/apns/core.rb:95-97 | a chunk decodes exactly when it has the 4 timestamp bytes; the timestamp is below 2^32 and the token is lower-case hex |
| `Feedback.UnpackWholeRecord` | lib/apns/core.rb:96 | a 38-byte record gives the big-endian value of bytes 0..3 and the 64-digit hex of bytes 6..37 |
| `Feedback.UnpackIgnoresTokenSize` | lib/apns/core.rb:96 | the result does not depend on bytes 4..5, the token-size field |
| `Feedback.UnpackEncodeRecord` | lib/apns/core.rb:95-97 | decoding a record as the service writes it reports its timestamp and the hex of its token |
| `Feedback.DecodeStream` | lib/apns/core.rb:93-98 | the stream is accepted unless its last chunk has 1 to 3 bytes; then it yields one record per 38 bytes or part thereof |
| `Feedback.DecodeWholeRecords` | lib/apns/core.rb:93-103 | a stream of exactly 38k bytes yields k records, the i-th decoded from the i-th 38 bytes |
| `Feedback.DecodeEncodeStream` | lib/apns/core.rb:93-103 | reading what the service wrote reports every record in arrival order, nothing added or lost |
| `Endpoints.ReplaceAllAbsent` | lib/apns/core.rb:122 | `gsub` leaves a host without the pattern unchanged |
| `Endpoints.ReplaceAllComplete` | lib/apns/core.rb:122 | when pattern and replacement share no first characters, no occurrence of the pattern is left |
| `Endpoints.ReplaceAllInverse` | lib/apns/core.rb:122 | replacing back recovers the input when the replacement's first character is not in it |
| `Endpoints.FeedbackEndpoint` | lib/apns/core.rb:122-125 | the feedback host is the application host after `gsub('gateway','feedback')`, with no `gateway` left in it, and the port is 2196 whatever the application's port |
| `Endpoints.FeedbackHostInverse` | lib/apns/core.rb:122 | for hosts without `f` the feedback host determines the gateway host |
| `Endpoints.FeedbackHostOfSandbox` | lib/apns/core.rb:122 | the sandbox gateway's feedback host is `feedback.sandbox.push.apple.com` |
| `Endpoints.FeedbackHostOfProduction` | lib/apns/core.rb:122 | the production gateway's feedback host is `feedback.push.apple.com` |
| `Registry.NewApplication` | lib/apns/core.rb:9-12 | a new application's host is the sandbox gateway when `sandbox` holds and the production gateway otherwise, its port is the argument, and it has no TLS context |
| `Registry.SetCert` | lib/apns/core.rb:14-21 | each failure point happens exactly when the earlier checks pass and its own fails: nil path, then missing file (both touch nothing), then a text that is no certificate (leaves an empty context), then no key for that text and passphrase (leaves that certificate without a key); on success the context holds the certificate and key parsed from the file; host and port never change |
| `Registry.SetCertIdentity` | lib/apns/core.rb:14-21 | afterwards the application holds an identity iff the call succeeded, or it failed on the path checks and held one before |
| `Registry.InitialRegistry` | lib/apns/core.rb:9-12 | at load time only `:default` is known: sandbox gateway, port 2195, no identity |
| `Registry.SetHost` | lib/apns/core.rb:28-30 | only the default entry's host changes; every other entry and the stored PEM path and passphrase are untouched |
| `Registry.SetPort` | lib/apns/core.rb:32-34 | only the default entry's port changes; every other entry is untouched |
| `Registry.ReloadDefault` | lib/apns/core.rb:36-46 | the rescued `set_cert` on the default entry: other entries untouched; identity afterwards as for `set_cert`; no change at all when the path is nil or missing |
| `Registry.SetPem` | lib/apns/core.rb:36-40 | records the new path, never raises, keeps the default entry's host and port, leaves its context as `set_cert` with the new path and the stored passphrase does (a failed parse included), and changes no other entry |
| `Registry.SetPass` | lib/apns/core.rb:42-46 | records the new passphrase, never raises, keeps the default entry's host and port, leaves its context as `set_cert` with the stored path and the new passphrase does (a failed parse included), and changes no other entry |
| `Registry.AddApplication` | lib/apns/core.rb:48-52 | raises what `set_cert` on the new application raises, so it succeeds iff the certificate loads; on failure the registry is unchanged; on success the id maps to that application, with the gateway chosen by `sandbox`, port 2195 and an identity, and other entries are untouched |
| `Registry.AddApplicationRegisters` | lib/apns/core.rb:48-56 | `has_application?` after `add_application` answers yes for the ids known before, and for the new id exactly when its certificate loaded |
| `Registry.Run` | lib/apns/core.rb:24-56 | no sequence of configuration calls loses the default entry or removes an application |
| `Registry.RunRegisteredIds` | lib/apns/core.rb:48-56 | every id known after a sequence of calls was known before or was the id of some `add_application` call |
| `Client.GatewayEndpoint` | lib/apns/core.rb:107-111 | `open_connection` dials the application's own host and port |
| `Client.NewApplicationEndpoints` | lib/apns/core.rb:9-12 | a new application dials `gateway.sandbox.push.apple.com` or `gateway.push.apple.com` on the given port, and reads feedback from the matching `feedback.` host on port 2196 |
| `Client.SendNotifications` | lib/apns/core.rb:63-74 | an unknown id fails before any connection; otherwise it dials the application's host and port; a `nil` context fails after the TCP connect; on connection it writes n buffers for n notifications, each the whole packed batch |
| `Client.SendNotification` | lib/apns/core.rb:58-61 | the same failure cases and endpoint as `send_notifications`; on connection a single notification is written once, as exactly its frame |
| `Client.SendNotificationDeliversOnce` | lib/apns/core.rb:58-61 | for a batch of one the as-written send and the corrected send coincide, and the gateway reads back exactly that notification |
| `Client.GatewaySeesBatchRepeated` | lib/apns/core.rb:66-70 | the gateway reads a batch of n notifications repeated n times |
| `Client.DuplicateDeliveryExample` | lib/apns/core.rb:68-70 | two notifications reach the gateway as four frames |
| `Client.Send` | lib/apns/core.rb:63-74 | the corrected send makes one write, and it is exactly the packed batch; same failure cases as the as-written send |
| `Client.InitialCannotConnect` | lib/apns/core.rb:107-112 | at load time the default application has no context, so a send or a feedback read on it fails after dialling the sandbox gateway or its feedback host |
| `Client.SendDeliversEachOnce` | lib/apns/core.rb:63-74 | with the corrected send the gateway reads every notification exactly once, in order |
| `Client.ReadFeedback` | lib/apns/core.rb:90-104 | an unknown id fails before any connection; it dials the derived feedback host on port 2196; a `nil` context fails after the TCP connect; otherwise a stream of 38k bytes yields k records |
| `Client.FeedbackReportsServiceRecords` | lib/apns/core.rb:90-104 | reading what the service wrote reports each record in order |

## Left out

- TCP and TLS (`TCPSocket.new`, `SSLSocket`, `connect`, `close`, core.rb 108-130 and 72-73, 100-101): network I/O. Whether connect and handshake succeed is a boolean parameter. A failing or partial write and a read error mid-stream are not modelled. Closing is not modelled.
- The TLS context's contents. Whether the handshake succeeds is the `reachable` parameter, independent of whether the context holds a certificate and key. A `nil` context is modelled: it fails as `MissingContext` once the TCP connect has succeeded, and for such an application `reachable` false stands for a failed TCP connect.
- OpenSSL certificate and RSA key parsing, `File.exist?` and `File.read` (core.rb 16-20): foreign crypto and filesystem calls. `Environment` says which paths are readable and which PEM texts parse. A path that exists but cannot be read is not modelled. Nor is a file that changes between the two reads.
- `Time.at` (core.rb 97): the timestamp stays a natural number of seconds.
- `APNS::Notification` and `packaged_notification` (core.rb 59, 83): that class is not part of this model. Payloads are opaque byte strings.
- Ruby string encodings. The code concatenates `pack` output onto a string literal, which could raise an encoding error for non-binary payloads. Payloads are treated as bytes.
- `puts fhost` (core.rb 123): logging.
- The exception classes. An unknown id raises `NoMethodError` on a `nil` entry. The model reports this as `UnknownApplication`, with no endpoint, because no socket has been opened yet.
- Frames.DecodeEncodeFrames: the round trip is stated only for payloads below 2^32 bytes. Beyond that the code writes the length modulo 2^32 (`Frames.Frame` states this), and the frames can no longer be read back.

## Findings

| source | as written | input that shows it | evidently intended | confidence | as-written member | corrected member |
|---|---|---|---|---|---|---|
| lib/apns/core.rb:68-70 | the whole packed buffer of the batch is written once per notification, so a batch of n arrives n times (n² frames) | notifications with payloads `[1]` and `[2]`: the gateway reads frames `[1]`, `[2]`, `[1]`, `[2]` | write the packed buffer once, after packing | high; not executed | `Client.SendNotifications` | `Client.Send` |
