/** The strings the device firmware derives from its identity: the two MQTT
    topics, the MQTT username, and the reply it publishes for every command it
    processes (src/main.cpp). Every format comes with a parser that recovers
    the parts it was built from, and a lemma that the two are inverse. */
module Formats {

  datatype Option<T> = None | Some(value: T)

  const TopicRoot: string := "devices/"
  /** Topic on which the device publishes its replies. */
  const EventSuffix: string := "/messages/events/"
  /** Topic filter on which the device receives commands. */
  const CommandSuffix: string := "/messages/devicebound/#"
  /** Tail of the MQTT username: the IoT hub API version. */
  const ApiVersionSuffix: string := "/api-version=2018-06-30"

  const ReplyHead: string := "the command string <"
  const ReplyJoin: string := "> was "
  const Accepted: string := "processed successfully"
  const Rejected: string := "processed unsuccessfully"

  predicate EndsWith(s: string, tail: string) {
    |tail| <= |s| && s[|s| - |tail|..] == tail
  }

  /** The part of `s` between `head` and `tail`, when `s` starts with `head` and
      ends with `tail` without the two overlapping. */
  function Between(s: string, head: string, tail: string): (r: Option<string>)
    ensures r.Some? ==> s == head + r.value + tail
    ensures r.None? ==> forall m :: s != head + m + tail
  {
    if |head| + |tail| <= |s| && head <= s && EndsWith(s, tail) then
      var m := s[|head|..|s| - |tail|];
      assert s == head + m + tail by {
        assert s == s[..|head|] + s[|head|..|s| - |tail|] + s[|s| - |tail|..];
      }
      Some(m)
    else
      assert forall m :: s != head + m + tail by {
        forall m ensures s != head + m + tail {
          Framed(head, m, tail);
        }
      }
      None
  }

  lemma Framed(head: string, m: string, tail: string)
    ensures var s := head + m + tail;
      |head| + |tail| <= |s| && head <= s && EndsWith(s, tail)
  {
    var s := head + m + tail;
    assert s[..|head|] == head;
    assert s[|s| - |tail|..] == tail;
  }

  lemma BetweenInverts(s: string, head: string, m: string, tail: string)
    ensures Between(s, head, tail) == Some(m) <==> s == head + m + tail
  {
    if s == head + m + tail {
      assert s[|head|..|s| - |tail|] == m;
    }
  }

  // ---- topics (src/main.cpp:88 and :131) ----

  function EventTopic(deviceId: string): (topic: string)
    ensures Between(topic, TopicRoot, EventSuffix) == Some(deviceId)
  {
    BetweenInverts(TopicRoot + deviceId + EventSuffix, TopicRoot, deviceId, EventSuffix);
    TopicRoot + deviceId + EventSuffix
  }

  function CommandTopic(deviceId: string): (topic: string)
    ensures Between(topic, TopicRoot, CommandSuffix) == Some(deviceId)
  {
    BetweenInverts(TopicRoot + deviceId + CommandSuffix, TopicRoot, deviceId, CommandSuffix);
    TopicRoot + deviceId + CommandSuffix
  }

  function DeviceOfEventTopic(topic: string): Option<string> {
    Between(topic, TopicRoot, EventSuffix)
  }

  function DeviceOfCommandTopic(topic: string): Option<string> {
    Between(topic, TopicRoot, CommandSuffix)
  }

  /** A topic names a device's event topic exactly when it is built from that
      device identifier; distinct devices therefore never share one. */
  lemma EventTopicRoundTrip(deviceId: string, topic: string)
    ensures DeviceOfEventTopic(topic) == Some(deviceId) <==> topic == EventTopic(deviceId)
  {
    BetweenInverts(topic, TopicRoot, deviceId, EventSuffix);
  }

  lemma CommandTopicRoundTrip(deviceId: string, topic: string)
    ensures DeviceOfCommandTopic(topic) == Some(deviceId) <==> topic == CommandTopic(deviceId)
  {
    BetweenInverts(topic, TopicRoot, deviceId, CommandSuffix);
  }

  // ---- MQTT username (src/main.cpp:176-182) ----

  function Username(broker: string, deviceId: string): (username: string)
    ensures Between(username, broker + "/", ApiVersionSuffix) == Some(deviceId)
  {
    BetweenInverts(broker + "/" + deviceId + ApiVersionSuffix, broker + "/", deviceId, ApiVersionSuffix);
    broker + "/" + deviceId + ApiVersionSuffix
  }

  function DeviceOfUsername(broker: string, username: string): Option<string> {
    Between(username, broker + "/", ApiVersionSuffix)
  }

  /** Builds the username by successive appends, as setup() does. */
  method BuildUsername(broker: string, deviceId: string) returns (username: string)
    ensures DeviceOfUsername(broker, username) == Some(deviceId)
    ensures username == Username(broker, deviceId)
  {
    username := "";
    username := username + broker;
    username := username + "/";
    username := username + deviceId;
    username := username + ApiVersionSuffix;
    UsernameRoundTrip(broker, deviceId, username);
  }

  lemma UsernameRoundTrip(broker: string, deviceId: string, username: string)
    ensures DeviceOfUsername(broker, username) == Some(deviceId) <==> username == Username(broker, deviceId)
  {
    BetweenInverts(username, broker + "/", deviceId, ApiVersionSuffix);
  }

  // ---- reply text (src/main.cpp:132-135) ----

  /** The reply published for a command and the controller's verdict. */
  function ReplyText(command: string, understood: bool): (text: string)
    ensures ParseReply(text) == Some((command, understood))
  {
    var text := ReplyHead + command + ReplyJoin + (if understood then Accepted else Rejected);
    if understood then
      assert text == ReplyHead + command + (ReplyJoin + Accepted);
      ParsePositive(text, command);
      text
    else
      assert text == ReplyHead + command + (ReplyJoin + Rejected);
      ParseNegative(text, command);
      text
  }

  /** Recovers the quoted command and the verdict from a reply. */
  function ParseReply(text: string): Option<(string, bool)> {
    match Between(text, ReplyHead, ReplyJoin + Rejected)
    case Some(command) => Some((command, false))
    case None =>
      match Between(text, ReplyHead, ReplyJoin + Accepted)
      case Some(command) => Some((command, true))
      case None => None
  }

  /** No text ends both in the positive and in the negative verdict. */
  lemma VerdictsDisjoint(a: string, b: string)
    ensures a + (ReplyJoin + Accepted) != b + (ReplyJoin + Rejected)
  {
    var s, t := a + (ReplyJoin + Accepted), b + (ReplyJoin + Rejected);
    if |s| == |t| {
      var k := |s| - 28;
      assert s[k] == (ReplyJoin + Accepted)[0] == '>';
      assert t[k] == (ReplyJoin + Rejected)[2] == 'w';
    }
  }

  /** The reply quotes the command verbatim and states the verdict, and this is
      the only reading of it. */
  lemma ReplyRoundTrip(text: string, command: string, understood: bool)
    ensures ParseReply(text) == Some((command, understood)) <==> text == ReplyText(command, understood)
  {
    if understood {
      assert ReplyText(command, true) == ReplyHead + command + (ReplyJoin + Accepted);
      ParsePositive(text, command);
    } else {
      assert ReplyText(command, false) == ReplyHead + command + (ReplyJoin + Rejected);
      ParseNegative(text, command);
    }
  }

  lemma ParseNegative(text: string, command: string)
    ensures ParseReply(text) == Some((command, false)) <==> text == ReplyHead + command + (ReplyJoin + Rejected)
  {
    BetweenInverts(text, ReplyHead, command, ReplyJoin + Rejected);
  }

  lemma ParsePositive(text: string, command: string)
    ensures ParseReply(text) == Some((command, true)) <==> text == ReplyHead + command + (ReplyJoin + Accepted)
  {
    BetweenInverts(text, ReplyHead, command, ReplyJoin + Accepted);
    var negative := Between(text, ReplyHead, ReplyJoin + Rejected);
    if negative.Some? && text == ReplyHead + command + (ReplyJoin + Accepted) {
      VerdictsDisjoint(ReplyHead + command, ReplyHead + negative.value);
    }
  }
}
