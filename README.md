# Cloud lighting device firmware: connectivity and command dispatch

A Dafny model of the firmware of an Arduino MKR WiFi 1010 that connects to an
Azure IoT hub over MQTT/TLS, receives textual zone commands and reports back
whether the zone-lighting controller understood them. The whole logic sits in
`src/main.cpp`; the model covers its two parts.

- **Message handler** (`dispatcher.dfy`, module `Dispatcher`). `onMessageReceived`
  is a method of the class `MessageDispatcher`, which owns the global 256-character
  `mqtt_buffer` as an `array<char>` that is zeroed once and never cleared. A
  message of length 0 is ignored. A message longer than 256 characters makes the
  handler flush the client and return. Any other message is copied over the front
  of the buffer, and the rest of the buffer keeps what earlier messages left
  there. The command handed to the zone controller is the buffer up to its first
  NUL, capped at 256 characters (`strnlen`), so it can include those stale
  characters. The controller is asked twice. A reply
  `the command string <cmd> was processed successfully|unsuccessfully` goes to
  `devices/<deviceId>/messages/events/`. The method is proved against the pure
  function `Receive`, and the lemmas about `Receive` state the handler's
  behaviour. `ReceiveIntended` is the handler as evidently intended (see
  Findings).
- **Connectivity driver** (`session.dfy`, module `Session`). `setup`, `loop`,
  `connectWiFi` and `connectMQTT` are the named constructor and the methods of the
  class `Device`. The fields `networkUp` and `sessionUp` are what `WiFi.status()`
  and `mqttClient.connected()` report. A ghost trace records every join attempt,
  broker connection attempt, subscription and poll. The retry loops run over a
  sequence of attempt outcomes supplied by the environment, and a poll hands at
  most one inbound message to the message handler. Lemmas over the trace show
  three things. Each layer is (re)connected only when it was found down.
  Connections and subscriptions pair up one to one. Polling happens once per pass,
  last, with both layers up.
- **Formats** (`formats.dfy`): the event and command topics, the MQTT username
  (built by successive appends, as `setup` does) and the reply text. Each has a
  parser, and both directions of each round trip are proved.
- **C strings** (`cstring.dfy`): `strnlen` as a specification function, with the
  array scan that computes it.

The zone controller's `HighlightZone` is not part of this model. It appears as
`router: string -> bool`, a deterministic function fixed when the device is set
up. The WiFi radio, TLS, the crypto element and the MQTT client are replaced by
inputs (payloads, attempt outcomes) and ghost records (published replies, routed
strings, flushes, trace events).

The model follows the code as written, including where it evidently departs
from what its authors meant. The handler reads `buffer_len` characters
(src/main.cpp:123) but bounds the command by the first NUL of the reused buffer
(src/main.cpp:129). It prints "did not equate to any known operation"
(src/main.cpp:141) when the controller accepts the command
(src/main.cpp:137). Both are logged under "## Findings", together with the
unterminated buffer that a full-size payload leaves behind, and the handler as
evidently intended is modelled and proved beside the handler as written.

## Model

| member | source | states |
|---|---|---|
| `Formats.Between` | src/main.cpp:88 | the text between a fixed head and tail is returned only when the string is exactly head + it + tail, and nothing is returned when no such middle exists |
| `Formats.BetweenInverts` | src/main.cpp:88 | stripping a head and a tail inverts putting them on, in both directions |
| `Formats.EventTopic` | src/main.cpp:131 | the reply topic is `devices/`, the device id and `/messages/events/`, and stripping that head and tail gives back exactly the device id |
| `Formats.CommandTopic` | src/main.cpp:88 | the subscription topic is `devices/`, the device id and `/messages/devicebound/#`, and stripping that head and tail gives back exactly the device id |
| `Formats.EventTopicRoundTrip` | src/main.cpp:131 | a topic is `devices/<id>/messages/events/` exactly when parsing it gives back `id`, so each device identifier has its own reply topic |
| `Formats.CommandTopicRoundTrip` | src/main.cpp:88 | a topic is `devices/<id>/messages/devicebound/#` exactly when parsing it gives back `id` |
| `Formats.Username` | src/main.cpp:176-182 | the username is the broker, "/", the device id and "/api-version=2018-06-30", and stripping the broker part and the API version gives back exactly the device id |
| `Formats.BuildUsername` | src/main.cpp:176-182 | the username built by appending broker, "/", device id and "/api-version=2018-06-30" is `Username(broker, deviceId)` and parses back to the device id |
| `Formats.UsernameRoundTrip` | src/main.cpp:176-182 | a username parses back to a device id exactly when it is `broker/<id>/api-version=2018-06-30` |
| `Formats.ReplyText` | src/main.cpp:132-135 | the published reply, `the command string <` + command + `> was ` + the verdict phrase (successfully when the controller understood the command, unsuccessfully otherwise), parses back to exactly that command and that verdict |
| `Formats.VerdictsDisjoint` | src/main.cpp:134-135 | no text ends both with "> was processed successfully" and with "> was processed unsuccessfully" |
| `Formats.ReplyRoundTrip` | src/main.cpp:132-135 | a reply parses to (command, verdict) exactly when it is `the command string <command> was processed successfully/unsuccessfully`, so the command is quoted verbatim and the verdict is recoverable |
| `Formats.ParseNegative` | src/main.cpp:132-135 | a text parses as a negative reply quoting `command` exactly when it is the head, the command and "> was processed unsuccessfully" |
| `Formats.ParsePositive` | src/main.cpp:132-135 | a text parses as a positive reply quoting `command` exactly when it is the head, the command and "> was processed successfully" |
| `CString.StrNLen` | src/main.cpp:129 | strnlen: the count is at most the cap and the length, covers no NUL, and stops on a NUL when it stops before both limits |
| `CString.StrNLenUnique` | src/main.cpp:129 | those three properties determine the strnlen count |
| `CString.StrNLenAfterNulFree` | src/main.cpp:129 | a NUL-free prefix is counted whole and the count continues into what follows it, with the cap reduced by the prefix length |
| `CString.StrNLenStopsInside` | src/main.cpp:129 | when the count stops inside a prefix, whatever follows the prefix does not change it |
| `CString.ScanLength` | src/main.cpp:129 | scanning the array computes exactly the strnlen count |
| `Dispatcher.Boot` | src/main.cpp:40-41 | the buffer at boot holds 256 NUL characters |
| `Dispatcher.Command` | src/main.cpp:129 | the command is a prefix of the buffer of at most 256 characters, contains no NUL, and is followed by a NUL unless it hit the cap |
| `Dispatcher.Receive` | src/main.cpp:101-144 | one call of the handler keeps the buffer at 256 characters; its behaviour is stated by the lemmas below |
| `Dispatcher.MessageDispatcher.constructor` | src/main.cpp:40-41 | the fresh handler holds a fresh 256-character buffer of NULs and has published and routed nothing |
| `Dispatcher.MessageDispatcher.OnMessage` | src/main.cpp:101-144 | the new buffer contents, published replies, routed strings, diagnostics and flush count are exactly `Receive` of the old ones |
| `Dispatcher.DroppedMessage` | src/main.cpp:108-121 | with 0 or more than 256 characters available, the buffer, the replies, the routed strings and the diagnostics are unchanged; the flush count goes up by one exactly for the oversized message |
| `Dispatcher.AcceptedMessage` | src/main.cpp:123-137 | for 1 to 256 characters, the buffer's first L characters become the payload and the rest is kept; the same command is routed twice; exactly one reply is appended, on the device's event topic, and it reads back as that command and the router's verdict; the diagnostic is recorded with that command exactly when the router (asked the second time) returns true; the flush count is unchanged |
| `Dispatcher.NoticeWhenUnderstood` | src/main.cpp:137-142 | the diagnostic "did not equate to any known operation" is printed exactly when the reply reports success |
| `Dispatcher.CommandRunsIntoStale` | src/main.cpp:123-129 | for a NUL-free payload the command is the payload followed by the stale characters up to the next NUL, within the 256 cap |
| `Dispatcher.CommandStopsAtNul` | src/main.cpp:129 | for a payload containing a NUL the command is the payload up to its first NUL |
| `Dispatcher.FullPayloadUnterminated` | src/main.cpp:123-133 | a NUL-free 256-character payload leaves no NUL in the buffer and becomes the whole command |
| `Dispatcher.UnterminatedPersists` | src/main.cpp:123-140 | once the buffer holds no NUL, any NUL-free message of 1 to 256 characters leaves it without a NUL again, and the command is then the whole 256-character buffer: the unbounded prints at :125 and :133, and the one at :140 when the controller accepts the command, have no terminator inside the array for that message and for every such message after it |
| `Dispatcher.UnterminatedExample` | src/main.cpp:123-140 | 256 times 'A' followed by "Zone1" leaves "Zone1" and 251 'A's in the buffer with no NUL, and that whole buffer is the second command |
| `Dispatcher.StaleCommandExample` | src/main.cpp:123-136 | after "Zone12", the message "Zone3" is routed twice and answered as "Zone32" |
| `Dispatcher.NoticeContradictsReplyExample` | src/main.cpp:129-142 | with a controller that accepts "Zone1", the message "Zone1" gets a success reply and also the "did not equate to any known operation" diagnostic |
| `Dispatcher.ReceiveIntended` | src/main.cpp:123-142 | the handler as intended keeps the buffer at 256 characters; its behaviour is stated by the lemmas below |
| `Dispatcher.IntendedEchoesPayload` | src/main.cpp:129-136 | the intended handler copies the payload over the front of the buffer and keeps the rest, routes exactly the payload, once, whatever the buffer held before, and quotes exactly the payload and its verdict in one reply on the event topic |
| `Dispatcher.IntendedReplyBounded` | src/main.cpp:123-136 | whatever the buffer held, NUL or not, the intended handler's one reply is the reply text for exactly the payload, so its length is bounded by the payload's |
| `Dispatcher.IntendedNoticeWhenRejected` | src/main.cpp:137-142 | the intended handler calls the router once; the diagnostic, quoting exactly the payload, is recorded exactly when the reply reports failure, nothing is recorded on success, and the flush count is unchanged |
| `Dispatcher.IntendedAgreesWhenTerminated` | src/main.cpp:123-136 | when the payload has no NUL and a NUL already follows it in the buffer (or it fills the buffer), the code as written stores and publishes exactly what the intended handler does |
| `Session.FirstSuccess` | src/main.cpp:60-64 | the index of the first successful attempt: it succeeded and every earlier one failed |
| `Session.Consumed` | src/main.cpp:76-81 | a retry loop goes through a prefix of the attempt outcomes: some failed attempts, then it stops at its one success |
| `Session.NetworkPhaseShape` | src/main.cpp:55-69 | one connectWiFi call (`NetworkPhase`) records as many join attempts as it takes to reach the first success: all earlier attempts failed and the last one succeeded |
| `Session.SessionPhaseShape` | src/main.cpp:71-89 | one connectMQTT call (`SessionPhase`) records failed connections to the broker on port 8883 up to the first success, then that successful connection, then one subscription to the command topic |
| `Session.Deliver` | src/main.cpp:205 | a poll with no inbound message leaves the handler unchanged; with one it keeps the buffer at 256 characters, keeps every earlier reply and publishes at most one more |
| `Session.Device.Setup` | src/main.cpp:146-192 | after setup the client id is the device id, the username is `broker/<id>/api-version=2018-06-30`, the password is the device password, the handler's buffer is zeroed, neither layer is up and the trace is empty |
| `Session.Device.ConnectWiFi` | src/main.cpp:55-69 | join attempts are made until the first success, each one recorded, and then the network is up |
| `Session.Device.ConnectMQTT` | src/main.cpp:71-89 | connect attempts to the broker on port 8883 are made until the first success, each one recorded, then the session is up and exactly one subscription to `devices/<id>/messages/devicebound/#` follows |
| `Session.Device.Loop` | src/main.cpp:194-205 | both layers are up afterwards; the trace grows by exactly the pass's connect, subscribe and poll events; the inbound message, if any, goes through the handler; connections and subscriptions stay paired |
| `Session.PairedConcat` | src/main.cpp:76-88 | joining two traces in which connections and subscriptions pair up gives such a trace |
| `Session.SessionPhasePaired` | src/main.cpp:76-88 | in one connectMQTT call the only successful connection is immediately followed by the subscription, and the subscription by nothing else |
| `Session.LoopEventsPaired` | src/main.cpp:194-205 | the events of one pass of loop (`LoopEvents`) pair every successful broker connection with the subscription right after it |
| `Session.LoopKeepsSubscribesPaired` | src/main.cpp:194-205 | a pass of loop keeps every successful broker connection immediately followed by one subscription, and every subscription immediately preceded by one |
| `Session.JoinEventsAreJoins` | src/main.cpp:60 | the join phase records only join attempts |
| `Session.ConnectEventsAreConnects` | src/main.cpp:76 | the connect phase records only attempts on the configured broker and port 8883 |
| `Session.LoopConnectsOnlyWhenDown` | src/main.cpp:195-202 | a pass joins the network exactly when it was down and connects and subscribes exactly when the session was down; with both up it only polls (stated about `LoopEvents`, the events of one pass) |
| `Session.ReplayConcat` | src/main.cpp:195-205 | replaying two traces one after the other is replaying their concatenation |
| `Session.ReplayJoins` | src/main.cpp:60-64 | after the join attempts the radio reports what the last attempt returned, and the session is unaffected |
| `Session.ReplayConnects` | src/main.cpp:76-81 | after the connect attempts the client reports what the last attempt returned, and the network is unaffected |
| `Session.PollsOnlyWhenConnected` | src/main.cpp:194-205 | a pass (`LoopEvents`) polls exactly once, as its last step, and the events before the poll bring both layers up |
| `Session.NoPollBeforeLast` | src/main.cpp:194-205 | the connect phases of a pass contain no poll |
| `Session.PhasesBringLinksUp` | src/main.cpp:195-202 | replaying the connect phases of a pass from what the radio and the client reported brings both up |

## Left out

- `Session.Device.ConnectWiFi`: requires that some attempt succeeds. The firmware retries forever, which a terminating model cannot show. The 5-second `delay` between attempts is not modelled.
- `Session.Device.ConnectMQTT`: requires that some attempt succeeds, for the same reason.
- `Session.Device.Loop`: requires eventual success of whichever layer is down. A layer dropping between passes is the environment changing `networkUp` or `sessionUp`. One poll delivers at most one message. What `poll` does besides delivering (keep-alives) is not modelled.
- `Session.Device.Setup`: the boot halt when the ECCX08 is missing (src/main.cpp:155-158), the certificate reconstruction and slot setup (src/main.cpp:160-171), the time callback and `getTime` (src/main.cpp:50-53, 167), and `lightingController.Initialize()` (src/main.cpp:153) are foreign library calls and are left out. Neither layer being up at boot is a modelling assumption.
- The 5-second `millis()` block in `loop` (src/main.cpp:207-218) is left out. Its body only updates `lastMillis`, because everything else in it is commented out.
- All `Serial` output and the `while (!Serial)` wait are left out, except the one diagnostic at src/main.cpp:139-141. That diagnostic is recorded as `notices`.
- `Dispatcher.MessageDispatcher.OnMessage`: the three prints of `mqtt_buffer` (`Serial.print` at src/main.cpp:125 and 140, `mqttClient.print` at src/main.cpp:133) read up to a NUL with no bound. The reply text models them with the 256-capped command. That is exact whenever a NUL lies in the buffer. After one NUL-free 256-character payload the buffer holds no NUL, and every later NUL-free message leaves it without one (`Dispatcher.UnterminatedPersists`), so from then on the prints at src/main.cpp:125 and 133 read past the array for every such message, and the one at src/main.cpp:140 does so whenever the controller accepts the command. The model cannot express memory beyond the array; `Dispatcher.FullPayloadUnterminated`, `Dispatcher.UnterminatedPersists` and `Dispatcher.UnterminatedExample` state when it happens (see "## Findings").
- `Dispatcher.MessageDispatcher.OnMessage`: the `messageSize` argument and `messageTopic()` are only printed. `mqttClient.read` is taken to deliver all the characters `available()` reported. What `flush()` does inside the MQTT library is not part of this model; only the call is counted.
- Payloads are read as bytes through `(uint8_t*)mqtt_buffer` (src/main.cpp:123). Here each `char` of a payload stands for one byte; characters beyond one byte's range have no counterpart in the firmware.
- The zone controller (`zone_lighting_controller.h`) is not part of this model. Its table of known commands and its effect on the lights are an arbitrary deterministic `router`.
- Publishing is fire-and-forget in the firmware. A publish that fails is not modelled.
- The broker address and the device id and password are compile-time constants in the firmware; they are parameters here. The WiFi SSID and passphrase (src/main.cpp:34-35, used at :60) are not modelled: a join attempt records only its outcome.

## Findings

| source | as written | input that shows it | evidently intended | confidence | as-written member | corrected member |
|---|---|---|---|---|---|---|
| src/main.cpp:129 | the command is the reused buffer up to its first NUL, so a NUL-free payload runs on into characters of earlier messages | "Zone12", then "Zone3" (these payloads carry no NUL): the controller and the reply see "Zone32" | the command is exactly the payload's characters | high; not executed | `Dispatcher.StaleCommandExample` | `Dispatcher.IntendedEchoesPayload` |
| src/main.cpp:137-142 | the diagnostic "did not equate to any known operation" is printed when `HighlightZone` returns true, after asking the controller a second time | a controller accepting "Zone1", message "Zone1": the reply says processed successfully and the diagnostic is printed too | ask once, and print the diagnostic when the verdict is false | high; not executed | `Dispatcher.NoticeContradictsReplyExample` | `Dispatcher.IntendedNoticeWhenRejected` |
| src/main.cpp:123-140 | a NUL-free payload of 256 characters overwrites the whole buffer, so no terminator is left, and no later NUL-free message restores one; the prints of `mqtt_buffer` at :125 and :133 then run past the array, and the one at :140 too when the controller accepts the command | 256 times 'A', then "Zone1": the buffer is "Zone1" and 251 'A's with no NUL; the prints at :125 and :133 overread, and the one at :140 does too when the controller accepts "Zone1" followed by 251 'A's | the prints are bounded by the payload length, so the reply quotes exactly the payload | high; not executed | `Dispatcher.UnterminatedExample` | `Dispatcher.IntendedReplyBounded` |

`Dispatcher.MessageDispatcher` models the code as written. `Dispatcher.ReceiveIntended`
is the handler with both corrections, and `Dispatcher.IntendedAgreesWhenTerminated`
gives the condition under which the two agree.
