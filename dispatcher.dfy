/** The inbound message handler, onMessageReceived (src/main.cpp:101-144).

    The firmware keeps one global 256-character buffer, zeroed at boot and never
    cleared afterwards. A message of length L (what the MQTT client reports as
    available) is dropped when L is 0, flushed when L exceeds the buffer, and
    otherwise copied over the first L characters of the buffer. The command
    handed to the zone controller is the buffer up to its first NUL, at most
    256 characters, so it can run on into characters left by earlier messages.
    The controller is asked twice; the first verdict goes into the reply, the
    second decides a diagnostic line.

    The zone controller (HighlightZone) is an arbitrary deterministic function
    `router`; the MQTT client is replaced by the payload and by ghost records of
    what was published, which strings were routed and how often the client was
    flushed. */
module Dispatcher {
  import opened Formats
  import opened CString

  /** max_mqtt_buffer_len */
  const Capacity: nat := 256

  /** A message published to the broker. */
  datatype Message = Message(topic: string, text: string)

  /** What one can observe of the handler between two messages. */
  datatype Snapshot = Snapshot(
    buffer: seq<char>,     // contents of mqtt_buffer
    outbox: seq<Message>,  // replies published, oldest first
    routed: seq<string>,   // argument of every HighlightZone call, in order
    notices: seq<string>,  // commands for which "did not equate to any known operation" was printed
    flushes: nat)          // calls of mqttClient.flush()

  /** The state at boot: mqtt_buffer is zero-initialised. */
  function Boot(): (s: Snapshot)
    ensures |s.buffer| == Capacity && forall i :: 0 <= i < Capacity ==> s.buffer[i] == NUL
  {
    Snapshot(seq(Capacity, _ => NUL), [], [], [], 0)
  }

  /** The command the router sees: the buffer up to its first NUL, and never
      more than Capacity characters. */
  function Command(buffer: seq<char>): (cmd: string)
    ensures |cmd| <= Capacity && cmd <= buffer && NUL !in cmd
    ensures |cmd| < Capacity && |cmd| < |buffer| ==> buffer[|cmd|] == NUL
  {
    buffer[..StrNLen(buffer, Capacity)]
  }

  /** One call of onMessageReceived, as written. */
  function Receive(s: Snapshot, payload: seq<char>, deviceId: string, router: string -> bool): (r: Snapshot)
    requires |s.buffer| == Capacity
    ensures |r.buffer| == Capacity
  {
    if |payload| == 0 then s
    else if |payload| > Capacity then s.(flushes := s.flushes + 1)
    else
      var buffer := payload + s.buffer[|payload|..];
      var cmd := Command(buffer);
      var understood := router(cmd);
      var again := router(cmd);
      Snapshot(buffer,
               s.outbox + [Message(EventTopic(deviceId), ReplyText(cmd, understood))],
               s.routed + [cmd, cmd],
               if again then s.notices + [cmd] else s.notices,
               s.flushes)
  }

  class MessageDispatcher {
    const deviceId: string
    /** ZoneLightingController::HighlightZone */
    const router: string -> bool
    /** mqtt_buffer */
    const buffer: array<char>
    ghost var outbox: seq<Message>
    ghost var routed: seq<string>
    ghost var notices: seq<string>
    ghost var flushes: nat

    ghost predicate Valid()
      reads this
    {
      buffer.Length == Capacity
    }

    ghost function State(): Snapshot
      reads this, buffer
    {
      Snapshot(buffer[..], outbox, routed, notices, flushes)
    }

    constructor (deviceId: string, router: string -> bool)
      ensures Valid() && fresh(buffer)
      ensures this.deviceId == deviceId && this.router == router
      ensures State() == Boot()
    {
      this.deviceId := deviceId;
      this.router := router;
      buffer := new char[Capacity](_ => NUL);
      outbox, routed, notices, flushes := [], [], [], 0;
    }

    /** onMessageReceived: `payload` is what mqttClient.available() and
        mqttClient.read() deliver. */
    method OnMessage(payload: seq<char>)
      requires Valid()
      modifies this, buffer
      ensures Valid()
      ensures State() == Receive(old(State()), payload, deviceId, router)
    {
      var available := |payload|;
      if available == 0 {
        return;
      }
      if available > Capacity {
        flushes := flushes + 1;
        return;
      }
      forall i | 0 <= i < available {
        buffer[i] := payload[i];
      }
      assert buffer[..] == payload + old(buffer[..])[available..];
      var n := ScanLength(buffer, Capacity);
      var cmd := buffer[..n];
      var understood := router(cmd);
      outbox := outbox + [Message(EventTopic(deviceId), ReplyText(cmd, understood))];
      routed := routed + [cmd];
      var again := router(cmd);
      routed := routed + [cmd];
      if again {
        notices := notices + [cmd];
      }
    }
  }

  // ---- properties of one message, as written ----

  /** A message with nothing available, or with more than the buffer holds,
      leaves the buffer as it was, reaches no router and publishes nothing;
      only the oversized one flushes the client (src/main.cpp:108-121). */
  lemma DroppedMessage(s: Snapshot, payload: seq<char>, deviceId: string, router: string -> bool)
    requires |s.buffer| == Capacity
    requires |payload| == 0 || |payload| > Capacity
    ensures var r := Receive(s, payload, deviceId, router);
      && r.buffer == s.buffer && r.outbox == s.outbox
      && r.routed == s.routed && r.notices == s.notices
      && r.flushes == if |payload| > Capacity then s.flushes + 1 else s.flushes
  {
  }

  /** An accepted message overwrites exactly the first L characters of the
      buffer and keeps the rest, hands the same command to the router twice,
      and publishes exactly one reply, on the device's event topic, that reads
      back as that command and the first verdict (src/main.cpp:123-137). */
  lemma AcceptedMessage(s: Snapshot, payload: seq<char>, deviceId: string, router: string -> bool)
    requires |s.buffer| == Capacity && 0 < |payload| <= Capacity
    ensures var r := Receive(s, payload, deviceId, router);
      var cmd := Command(r.buffer);
      && r.buffer[..|payload|] == payload
      && r.buffer[|payload|..] == s.buffer[|payload|..]
      && r.routed == s.routed + [cmd, cmd]
      && |r.outbox| == |s.outbox| + 1 && r.outbox[..|s.outbox|] == s.outbox
      && DeviceOfEventTopic(r.outbox[|s.outbox|].topic) == Some(deviceId)
      && ParseReply(r.outbox[|s.outbox|].text) == Some((cmd, router(cmd)))
      && r.notices == (if router(cmd) then s.notices + [cmd] else s.notices)
      && r.flushes == s.flushes
  {
    var r := Receive(s, payload, deviceId, router);
    var cmd := Command(r.buffer);
    var reply := r.outbox[|s.outbox|];
    EventTopicRoundTrip(deviceId, reply.topic);
    ReplyRoundTrip(reply.text, cmd, router(cmd));
  }

  /** The diagnostic saying that the command "did not equate to any known
      operation" is printed exactly when the reply reports success
      (src/main.cpp:137-142). */
  lemma NoticeWhenUnderstood(s: Snapshot, payload: seq<char>, deviceId: string, router: string -> bool)
    requires |s.buffer| == Capacity && 0 < |payload| <= Capacity
    ensures var r := Receive(s, payload, deviceId, router);
      |r.outbox| == |s.outbox| + 1
      && (|r.notices| > |s.notices| <==> ParseReply(r.outbox[|s.outbox|].text) == Some((Command(r.buffer), true)))
  {
    AcceptedMessage(s, payload, deviceId, router);
  }

  /** With no NUL in the payload, the command runs on past the payload into the
      characters left in the buffer by earlier messages. */
  lemma {:induction false} CommandRunsIntoStale(payload: seq<char>, stale: seq<char>)
    requires 0 < |payload| <= Capacity && NUL !in payload
    ensures Command(payload + stale) == payload + stale[..StrNLen(stale, Capacity - |payload|)]
  {
    StrNLenAfterNulFree(payload, stale, Capacity);
    var n := StrNLen(stale, Capacity - |payload|);
    assert (payload + stale)[..|payload| + n] == payload + stale[..n];
  }

  /** With a NUL in the payload, the command is the payload up to it. */
  lemma CommandStopsAtNul(payload: seq<char>, stale: seq<char>)
    requires 0 < |payload| <= Capacity && NUL in payload
    ensures Command(payload + stale) == payload[..StrNLen(payload, Capacity)]
  {
    var k :| 0 <= k < |payload| && payload[k] == NUL;
    assert StrNLen(payload, Capacity) <= k;
    StrNLenStopsInside(payload, stale, Capacity);
    var n := StrNLen(payload, Capacity);
    assert (payload + stale)[..n] == payload[..n];
  }

  /** A 256-character payload without NUL leaves no terminator anywhere in the
      buffer: the command is the whole buffer, and the C string printed to the
      serial port and into the reply (src/main.cpp:125, 133) has no end inside
      the array. */
  lemma FullPayloadUnterminated(s: Snapshot, payload: seq<char>, deviceId: string, router: string -> bool)
    requires |s.buffer| == Capacity && |payload| == Capacity && NUL !in payload
    ensures var r := Receive(s, payload, deviceId, router);
      Command(r.buffer) == payload && forall i :: 0 <= i < Capacity ==> r.buffer[i] != NUL
  {
    var r := Receive(s, payload, deviceId, router);
    assert r.buffer == payload + [];
    CommandRunsIntoStale(payload, []);
  }

  /** Once the buffer holds no NUL, every later NUL-free message keeps it so:
      the command is then the whole buffer, and the C string printed to the
      serial port and into the reply (src/main.cpp:125, 133) has no end inside
      the array, for this message and every such message after it; so does the
      diagnostic (src/main.cpp:140), which is printed only when the controller
      accepts the command. */
  lemma UnterminatedPersists(s: Snapshot, payload: seq<char>, deviceId: string, router: string -> bool)
    requires |s.buffer| == Capacity && NUL !in s.buffer
    requires 0 < |payload| <= Capacity && NUL !in payload
    ensures var r := Receive(s, payload, deviceId, router);
      NUL !in r.buffer && Command(r.buffer) == r.buffer
  {
    var stale := s.buffer[|payload|..];
    assert NUL !in stale;
    CommandRunsIntoStale(payload, stale);
    assert StrNLen(stale, Capacity - |payload|) == |stale|;
  }

  /** 256 times 'A' and then "Zone1" leaves the buffer as "Zone1" followed by
      251 'A's, with no NUL anywhere: the second command is that whole buffer. */
  lemma UnterminatedExample(deviceId: string, router: string -> bool)
    ensures var first := Receive(Boot(), seq(Capacity, _ => 'A'), deviceId, router);
      var second := Receive(first, "Zone1", deviceId, router);
      && NUL !in second.buffer
      && Command(second.buffer) == "Zone1" + seq(Capacity - 5, _ => 'A')
  {
    var full := seq(Capacity, _ => 'A');
    assert NUL !in full;
    var first := Receive(Boot(), full, deviceId, router);
    assert first.buffer == full + Boot().buffer[Capacity..];
    assert NUL !in first.buffer;
    assert NUL !in "Zone1";
    UnterminatedPersists(first, "Zone1", deviceId, router);
    var second := Receive(first, "Zone1", deviceId, router);
    assert second.buffer == "Zone1" + seq(Capacity - 5, _ => 'A');
  }

  /** Stale characters reach the router: after "Zone12", the message "Zone3"
      is routed, and answered, as "Zone32". */
  lemma StaleCommandExample(deviceId: string, router: string -> bool)
    ensures var first := Receive(Boot(), "Zone12", deviceId, router);
      var second := Receive(first, "Zone3", deviceId, router);
      && first.routed == ["Zone12", "Zone12"]
      && second.routed == ["Zone12", "Zone12", "Zone32", "Zone32"]
      && second.outbox[1] == Message(EventTopic(deviceId), ReplyText("Zone32", router("Zone32")))
  {
    var boot := Boot().buffer;
    var first := Receive(Boot(), "Zone12", deviceId, router);
    assert NUL !in "Zone12" && NUL !in "Zone3";
    var tail1 := boot[6..];
    assert StrNLen(tail1, Capacity - 6) == 0 by { assert tail1[0] == NUL; }
    CommandRunsIntoStale("Zone12", tail1);
    assert Command(first.buffer) == "Zone12";
    var tail2 := first.buffer[5..];
    assert tail2[0] == '2' && tail2[1] == NUL;
    assert StrNLen(tail2, Capacity - 5) == 1 by {
      StrNLenUnique(tail2, Capacity - 5, 1);
    }
    CommandRunsIntoStale("Zone3", tail2);
    assert tail2[..1] == "2";
    assert Command("Zone3" + tail2) == "Zone32";
  }

  /** The controller accepting "Zone1" shows the inverted test: the reply says
      the command was processed successfully, and the device still prints that
      it did not equate to any known operation. */
  lemma NoticeContradictsReplyExample(deviceId: string)
    ensures var router := (c: string) => c == "Zone1";
      var r := Receive(Boot(), "Zone1", deviceId, router);
      r.outbox == [Message(EventTopic(deviceId), ReplyText("Zone1", true))] && r.notices == ["Zone1"]
  {
    var boot := Boot().buffer;
    assert NUL !in "Zone1";
    assert StrNLen(boot[5..], Capacity - 5) == 0 by { assert boot[5..][0] == NUL; }
    CommandRunsIntoStale("Zone1", boot[5..]);
    assert Command("Zone1" + boot[5..]) == "Zone1";
  }

  // ---- the handler as evidently intended ----

  /** onMessageReceived with the command bounded by the payload's length and
      the zone controller asked once; the diagnostic is printed when the
      controller did not understand. */
  function ReceiveIntended(s: Snapshot, payload: seq<char>, deviceId: string, router: string -> bool): (r: Snapshot)
    requires |s.buffer| == Capacity
    ensures |r.buffer| == Capacity
  {
    if |payload| == 0 then s
    else if |payload| > Capacity then s.(flushes := s.flushes + 1)
    else
      var buffer := payload + s.buffer[|payload|..];
      var cmd := buffer[..|payload|];
      var understood := router(cmd);
      Snapshot(buffer,
               s.outbox + [Message(EventTopic(deviceId), ReplyText(cmd, understood))],
               s.routed + [cmd],
               if understood then s.notices else s.notices + [cmd],
               s.flushes)
  }

  /** Whatever the buffer held before, the intended handler routes exactly the
      payload and quotes exactly the payload in its one reply. */
  lemma IntendedEchoesPayload(s: Snapshot, payload: seq<char>, deviceId: string, router: string -> bool)
    requires |s.buffer| == Capacity && 0 < |payload| <= Capacity
    ensures var r := ReceiveIntended(s, payload, deviceId, router);
      && r.buffer[..|payload|] == payload && r.buffer[|payload|..] == s.buffer[|payload|..]
      && r.routed == s.routed + [payload]
      && |r.outbox| == |s.outbox| + 1 && r.outbox[..|s.outbox|] == s.outbox
      && DeviceOfEventTopic(r.outbox[|s.outbox|].topic) == Some(deviceId)
      && ParseReply(r.outbox[|s.outbox|].text) == Some((payload, router(payload)))
  {
    var r := ReceiveIntended(s, payload, deviceId, router);
    var reply := r.outbox[|s.outbox|];
    assert r.buffer[..|payload|] == payload;
    EventTopicRoundTrip(deviceId, reply.topic);
    ReplyRoundTrip(reply.text, payload, router(payload));
  }

  /** Whatever the buffer holds, with or without a NUL, the intended handler's
      reply quotes only the payload: its length is bounded by the payload's. */
  lemma IntendedReplyBounded(s: Snapshot, payload: seq<char>, deviceId: string, router: string -> bool)
    requires |s.buffer| == Capacity && 0 < |payload| <= Capacity
    ensures var r := ReceiveIntended(s, payload, deviceId, router);
      |r.outbox| == |s.outbox| + 1
      && r.outbox[|s.outbox|].text == ReplyText(payload, router(payload))
      && |r.outbox[|s.outbox|].text| <= |ReplyHead| + |payload| + |ReplyJoin + Rejected|
  {
    var r := ReceiveIntended(s, payload, deviceId, router);
    assert r.buffer[..|payload|] == payload;
  }

  /** The intended handler asks the controller once, and prints the diagnostic,
      quoting exactly the payload, exactly when the reply reports failure. */
  lemma IntendedNoticeWhenRejected(s: Snapshot, payload: seq<char>, deviceId: string, router: string -> bool)
    requires |s.buffer| == Capacity && 0 < |payload| <= Capacity
    ensures var r := ReceiveIntended(s, payload, deviceId, router);
      && |r.routed| == |s.routed| + 1
      && |r.outbox| == |s.outbox| + 1
      && (|r.notices| > |s.notices| <==> ParseReply(r.outbox[|s.outbox|].text) == Some((payload, false)))
      && r.notices == (if router(payload) then s.notices else s.notices + [payload])
      && r.flushes == s.flushes
  {
    var r := ReceiveIntended(s, payload, deviceId, router);
    IntendedEchoesPayload(s, payload, deviceId, router);
    assert r.outbox[|s.outbox|].text == ReplyText(payload, router(payload));
  }

  /** When the payload carries no NUL and the buffer already held one right
      after it (or the payload fills the buffer), the firmware as written
      stores and answers exactly what the intended handler does. */
  lemma IntendedAgreesWhenTerminated(s: Snapshot, payload: seq<char>, deviceId: string, router: string -> bool)
    requires |s.buffer| == Capacity && 0 < |payload| <= Capacity && NUL !in payload
    requires |payload| < Capacity ==> s.buffer[|payload|] == NUL
    ensures var written := Receive(s, payload, deviceId, router);
      var intended := ReceiveIntended(s, payload, deviceId, router);
      written.buffer == intended.buffer && written.outbox == intended.outbox
  {
    var stale := s.buffer[|payload|..];
    CommandRunsIntoStale(payload, stale);
    assert StrNLen(stale, Capacity - |payload|) == 0 by {
      if |payload| < Capacity { assert stale[0] == NUL; }
    }
    assert (payload + stale)[..|payload|] == payload;
  }
}
