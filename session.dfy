/** The connectivity driver: setup(), loop(), connectWiFi() and connectMQTT()
    (src/main.cpp:55-89, 146-219).

    loop() first joins the WiFi network if the radio reports it is not
    connected, then connects to the MQTT broker if the client reports it is not
    connected, and only then polls the client, which hands any inbound message
    to the message handler. Both connect functions retry until an attempt
    succeeds; here the outcomes of the attempts are a sequence given by the
    environment, which eventually contains a success. Every successful broker
    connection is followed by one subscription to the device's command topic.
    What the device did is recorded as a ghost trace of events. */
module Session {
  import opened Formats
  import Dispatcher

  /** The broker's MQTT-over-TLS port. */
  const MqttPort: nat := 8883

  datatype Event =
    | JoinNetwork(ok: bool)                            // one WiFi.begin(ssid, pass)
    | ConnectBroker(host: string, port: nat, ok: bool) // one mqttClient.connect(broker, 8883)
    | Subscribe(topic: string)                         // mqttClient.subscribe(topic)
    | Poll                                             // mqttClient.poll()

  /** The index of the first successful attempt. */
  function FirstSuccess(tries: seq<bool>): (k: nat)
    requires true in tries
    ensures k < |tries| && tries[k]
    ensures forall i :: 0 <= i < k ==> !tries[i]
  {
    if tries[0] then 0
    else
      assert true in tries[1..] by {
        var j :| 0 <= j < |tries| && tries[j];
        assert tries[1..][j - 1];
      }
      FirstSuccess(tries[1..]) + 1
  }

  /** The outcomes a retry loop goes through: failures, then one success. */
  function Consumed(tries: seq<bool>): (used: seq<bool>)
    requires true in tries
    ensures used <= tries
    ensures |used| > 0 && used[|used| - 1]
    ensures forall i :: 0 <= i < |used| - 1 ==> !used[i]
  {
    tries[..FirstSuccess(tries) + 1]
  }

  function JoinEvents(outcomes: seq<bool>): seq<Event> {
    seq(|outcomes|, i requires 0 <= i < |outcomes| => JoinNetwork(outcomes[i]))
  }

  function ConnectEvents(broker: string, outcomes: seq<bool>): seq<Event> {
    seq(|outcomes|, i requires 0 <= i < |outcomes| => ConnectBroker(broker, MqttPort, outcomes[i]))
  }

  /** What one call of connectWiFi() does. */
  function NetworkPhase(tries: seq<bool>): (es: seq<Event>)
    requires true in tries
  {
    JoinEvents(Consumed(tries))
  }

  /** What one call of connectMQTT() does. */
  function SessionPhase(broker: string, deviceId: string, tries: seq<bool>): (es: seq<Event>)
    requires true in tries
  {
    ConnectEvents(broker, Consumed(tries)) + [Subscribe(CommandTopic(deviceId))]
  }

  /** connectWiFi() stops at the first successful join: every earlier attempt
      failed, and the last one recorded succeeded. */
  lemma NetworkPhaseShape(tries: seq<bool>)
    requires true in tries
    ensures var es := NetworkPhase(tries);
      && |es| == FirstSuccess(tries) + 1 && es[|es| - 1] == JoinNetwork(true)
      && forall i :: 0 <= i < |es| - 1 ==> es[i] == JoinNetwork(false)
  {
  }

  /** connectMQTT() stops at the first successful connection to the broker on
      port 8883, after failed ones to the same broker, and then subscribes once
      to the device's command topic. */
  lemma SessionPhaseShape(broker: string, deviceId: string, tries: seq<bool>)
    requires true in tries
    ensures var es := SessionPhase(broker, deviceId, tries);
      && |es| == FirstSuccess(tries) + 2
      && es[|es| - 2] == ConnectBroker(broker, MqttPort, true)
      && es[|es| - 1] == Subscribe(CommandTopic(deviceId))
      && forall i :: 0 <= i < |es| - 2 ==> es[i] == ConnectBroker(broker, MqttPort, false)
  {
  }

  /** What one call of loop() does, given what the radio and the MQTT client
      report when it starts. */
  function LoopEvents(networkUp: bool, sessionUp: bool, networkTries: seq<bool>, brokerTries: seq<bool>,
                      broker: string, deviceId: string): (es: seq<Event>)
    requires !networkUp ==> true in networkTries
    requires !sessionUp ==> true in brokerTries
  {
    (if networkUp then [] else NetworkPhase(networkTries))
    + (if sessionUp then [] else SessionPhase(broker, deviceId, brokerTries))
    + [Poll]
  }

  /** What a poll does to the message handler: it runs onMessageReceived for
      the message that arrived, if any. */
  function Deliver(s: Dispatcher.Snapshot, inbound: Option<seq<char>>, deviceId: string,
                   router: string -> bool): (r: Dispatcher.Snapshot)
    requires |s.buffer| == Dispatcher.Capacity
    ensures |r.buffer| == Dispatcher.Capacity
    ensures inbound.None? ==> r == s
    ensures |s.outbox| <= |r.outbox| <= |s.outbox| + 1 && r.outbox[..|s.outbox|] == s.outbox
  {
    match inbound
    case None => s
    case Some(payload) => Dispatcher.Receive(s, payload, deviceId, router)
  }

  class Device {
    const deviceId: string
    const broker: string
    /** mqttClient.setId */
    const clientId: string
    /** mqttClient.setUsernamePassword */
    const username: string
    const password: string
    /** The message callback, with mqtt_buffer. */
    const dispatcher: Dispatcher.MessageDispatcher
    /** WiFi.status() == WL_CONNECTED */
    var networkUp: bool
    /** mqttClient.connected() */
    var sessionUp: bool
    ghost var trace: seq<Event>

    ghost predicate Valid()
      reads this, dispatcher
    {
      && dispatcher.Valid() && dispatcher.deviceId == deviceId
      && SubscribesPaired(trace, CommandTopic(deviceId))
    }

    /** setup(): the client identity, the credentials and the message callback.
        Neither link is up at boot. */
    constructor Setup(deviceId: string, devicePass: string, broker: string, router: string -> bool)
      ensures Valid() && fresh(dispatcher) && fresh(dispatcher.buffer)
      ensures this.deviceId == deviceId && this.broker == broker
      ensures clientId == deviceId && username == Username(broker, deviceId) && password == devicePass
      ensures dispatcher.router == router && dispatcher.State() == Dispatcher.Boot()
      ensures !networkUp && !sessionUp && trace == []
    {
      this.deviceId := deviceId;
      this.broker := broker;
      clientId := deviceId;
      var name := BuildUsername(broker, deviceId);
      username := name;
      password := devicePass;
      dispatcher := new Dispatcher.MessageDispatcher(deviceId, router);
      networkUp, sessionUp := false, false;
      trace := [];
    }

    /** connectWiFi(): `tries` are the outcomes of successive WiFi.begin calls. */
    method ConnectWiFi(tries: seq<bool>)
      requires true in tries
      modifies this`networkUp, this`trace
      ensures networkUp
      ensures trace == old(trace) + NetworkPhase(tries)
    {
      var i := 0;
      var joined := tries[i];
      trace := trace + [JoinNetwork(joined)];
      while !joined
        invariant i <= FirstSuccess(tries) && joined == tries[i]
        invariant trace == old(trace) + JoinEvents(tries[..i + 1])
        decreases FirstSuccess(tries) - i
      {
        i := i + 1;
        joined := tries[i];
        assert JoinEvents(tries[..i + 1]) == JoinEvents(tries[..i]) + [JoinNetwork(joined)];
        trace := trace + [JoinNetwork(joined)];
      }
      networkUp := true;
    }

    /** connectMQTT(): `tries` are the outcomes of successive
        mqttClient.connect(broker, 8883) calls. */
    method ConnectMQTT(tries: seq<bool>)
      requires true in tries
      modifies this`sessionUp, this`trace
      ensures sessionUp
      ensures trace == old(trace) + SessionPhase(broker, deviceId, tries)
    {
      var i := 0;
      var connected := tries[i];
      trace := trace + [ConnectBroker(broker, MqttPort, connected)];
      while !connected
        invariant i <= FirstSuccess(tries) && connected == tries[i]
        invariant trace == old(trace) + ConnectEvents(broker, tries[..i + 1])
        decreases FirstSuccess(tries) - i
      {
        i := i + 1;
        connected := tries[i];
        assert ConnectEvents(broker, tries[..i + 1])
            == ConnectEvents(broker, tries[..i]) + [ConnectBroker(broker, MqttPort, connected)];
        trace := trace + [ConnectBroker(broker, MqttPort, connected)];
      }
      sessionUp := true;
      trace := trace + [Subscribe(CommandTopic(deviceId))];
    }

    /** loop(): `inbound` is the message, if any, that the poll receives. */
    method Loop(networkTries: seq<bool>, brokerTries: seq<bool>, inbound: Option<seq<char>>)
      requires Valid()
      requires !networkUp ==> true in networkTries
      requires !sessionUp ==> true in brokerTries
      modifies this`networkUp, this`sessionUp, this`trace, dispatcher, dispatcher.buffer
      ensures Valid() && networkUp && sessionUp
      ensures trace == old(trace) + LoopEvents(old(networkUp), old(sessionUp), networkTries, brokerTries, broker, deviceId)
      ensures dispatcher.State() == Deliver(old(dispatcher.State()), inbound, deviceId, dispatcher.router)
    {
      if !networkUp {
        ConnectWiFi(networkTries);
      }
      if !sessionUp {
        ConnectMQTT(brokerTries);
      }
      trace := trace + [Poll];
      assert trace == old(trace) + LoopEvents(old(networkUp), old(sessionUp), networkTries, brokerTries, broker, deviceId);
      LoopKeepsSubscribesPaired(old(trace), old(networkUp), old(sessionUp), networkTries, brokerTries, broker, deviceId);
      if inbound.Some? {
        dispatcher.OnMessage(inbound.value);
      }
    }
  }

  // ---- subscribe once per connection ----

  /** Every successful broker connection is immediately followed by a
      subscription to `topic`, and every subscription immediately follows a
      successful connection: connections and subscriptions pair up one to one. */
  ghost predicate SubscribesPaired(t: seq<Event>, topic: string) {
    forall i :: 0 <= i < |t| ==> SubscribedAfter(t, i, topic) && ConnectedBefore(t, i)
  }

  /** If event `i` is a successful connection, a subscription to `topic` follows it. */
  ghost predicate SubscribedAfter(t: seq<Event>, i: nat, topic: string)
    requires i < |t|
  {
    t[i].ConnectBroker? && t[i].ok ==> i + 1 < |t| && t[i + 1] == Subscribe(topic)
  }

  /** If event `i` is a subscription, a successful connection precedes it. */
  ghost predicate ConnectedBefore(t: seq<Event>, i: nat)
    requires i < |t|
  {
    t[i].Subscribe? ==> 0 < i && t[i - 1].ConnectBroker? && t[i - 1].ok
  }

  lemma PairedConcat(a: seq<Event>, b: seq<Event>, topic: string)
    requires SubscribesPaired(a, topic) && SubscribesPaired(b, topic)
    ensures SubscribesPaired(a + b, topic)
  {
    var t := a + b;
    forall i | 0 <= i < |t| ensures SubscribedAfter(t, i, topic) && ConnectedBefore(t, i) {
      if i < |a| {
        assert SubscribedAfter(a, i, topic) && ConnectedBefore(a, i);
        assert a[i] == t[i];
        if i + 1 < |a| { assert a[i + 1] == t[i + 1]; }
        if 0 < i { assert a[i - 1] == t[i - 1]; }
      } else {
        var j := i - |a|;
        assert SubscribedAfter(b, j, topic) && ConnectedBefore(b, j);
        assert b[j] == t[i];
        if j + 1 < |b| { assert b[j + 1] == t[i + 1]; }
        if 0 < j { assert b[j - 1] == t[i - 1]; }
      }
    }
  }

  lemma SessionPhasePaired(broker: string, deviceId: string, tries: seq<bool>)
    requires true in tries
    ensures SubscribesPaired(SessionPhase(broker, deviceId, tries), CommandTopic(deviceId))
  {
    var used := Consumed(tries);
    var topic := CommandTopic(deviceId);
    var t := SessionPhase(broker, deviceId, tries);
    assert |t| == |used| + 1;
    forall i | 0 <= i < |t| ensures SubscribedAfter(t, i, topic) && ConnectedBefore(t, i) {
      if i < |used| {
        assert t[i] == ConnectBroker(broker, MqttPort, used[i]);
      } else {
        assert t[i - 1] == ConnectBroker(broker, MqttPort, used[i - 1]);
      }
    }
  }

  /** One pass of loop() keeps connections and subscriptions paired. */
  lemma LoopKeepsSubscribesPaired(t: seq<Event>, networkUp: bool, sessionUp: bool,
                                  networkTries: seq<bool>, brokerTries: seq<bool>, broker: string, deviceId: string)
    requires !networkUp ==> true in networkTries
    requires !sessionUp ==> true in brokerTries
    requires SubscribesPaired(t, CommandTopic(deviceId))
    ensures SubscribesPaired(t + LoopEvents(networkUp, sessionUp, networkTries, brokerTries, broker, deviceId),
                             CommandTopic(deviceId))
  {
    LoopEventsPaired(networkUp, sessionUp, networkTries, brokerTries, broker, deviceId);
    PairedConcat(t, LoopEvents(networkUp, sessionUp, networkTries, brokerTries, broker, deviceId), CommandTopic(deviceId));
  }

  lemma LoopEventsPaired(networkUp: bool, sessionUp: bool,
                         networkTries: seq<bool>, brokerTries: seq<bool>, broker: string, deviceId: string)
    requires !networkUp ==> true in networkTries
    requires !sessionUp ==> true in brokerTries
    ensures SubscribesPaired(LoopEvents(networkUp, sessionUp, networkTries, brokerTries, broker, deviceId),
                             CommandTopic(deviceId))
  {
    var topic := CommandTopic(deviceId);
    var network := if networkUp then [] else NetworkPhase(networkTries);
    var session := if sessionUp then [] else SessionPhase(broker, deviceId, brokerTries);
    if !sessionUp {
      SessionPhasePaired(broker, deviceId, brokerTries);
    }
    forall i | 0 <= i < |network| ensures SubscribedAfter(network, i, topic) && ConnectedBefore(network, i) {
      assert network[i] == JoinNetwork(Consumed(networkTries)[i]);
    }
    assert SubscribedAfter([Poll], 0, topic) && ConnectedBefore([Poll], 0);
    PairedConcat(network, session, topic);
    PairedConcat(network + session, [Poll], topic);
  }

  // ---- each layer is connected only when it is down ----

  lemma JoinEventsAreJoins(outcomes: seq<bool>, e: Event)
    requires e in JoinEvents(outcomes)
    ensures e.JoinNetwork?
  {
    var i :| 0 <= i < |outcomes| && JoinEvents(outcomes)[i] == e;
  }

  lemma ConnectEventsAreConnects(broker: string, outcomes: seq<bool>, e: Event)
    requires e in ConnectEvents(broker, outcomes)
    ensures e == ConnectBroker(broker, MqttPort, e.ok)
  {
    var i :| 0 <= i < |outcomes| && ConnectEvents(broker, outcomes)[i] == e;
  }

  /** One pass of loop() tries to join the network exactly when the radio was
      not connected, and connects and subscribes exactly when the client was not
      connected; when both were, it only polls. */
  lemma LoopConnectsOnlyWhenDown(networkUp: bool, sessionUp: bool, networkTries: seq<bool>, brokerTries: seq<bool>,
                                 broker: string, deviceId: string)
    requires !networkUp ==> true in networkTries
    requires !sessionUp ==> true in brokerTries
    ensures var es := LoopEvents(networkUp, sessionUp, networkTries, brokerTries, broker, deviceId);
      && ((exists e :: e in es && e.JoinNetwork?) <==> !networkUp)
      && ((exists e :: e in es && e.ConnectBroker?) <==> !sessionUp)
      && (Subscribe(CommandTopic(deviceId)) in es <==> !sessionUp)
      && (networkUp && sessionUp ==> es == [Poll])
  {
    var es := LoopEvents(networkUp, sessionUp, networkTries, brokerTries, broker, deviceId);
    var network := if networkUp then [] else NetworkPhase(networkTries);
    var connects := if sessionUp then [] else ConnectEvents(broker, Consumed(brokerTries));
    var subscribes := if sessionUp then [] else [Subscribe(CommandTopic(deviceId))];
    assert es == network + connects + subscribes + [Poll];
    forall e | e in network ensures e.JoinNetwork? {
      JoinEventsAreJoins(Consumed(networkTries), e);
    }
    forall e | e in connects ensures e.ConnectBroker? {
      ConnectEventsAreConnects(broker, Consumed(brokerTries), e);
    }
    if !networkUp {
      assert network[0] in es;
    }
    if !sessionUp {
      assert connects[0] in es;
      assert subscribes[0] in es;
    }
  }

  // ---- polling happens with both links up ----

  /** What the radio and the MQTT client report. */
  datatype Links = Links(network: bool, session: bool)

  /** How an event changes what the radio and the client report. */
  function After(l: Links, e: Event): Links {
    match e
    case JoinNetwork(ok) => l.(network := ok)
    case ConnectBroker(_, _, ok) => l.(session := ok)
    case _ => l
  }

  function Replay(l: Links, es: seq<Event>): Links
    decreases |es|
  {
    if es == [] then l else Replay(After(l, es[0]), es[1..])
  }

  lemma {:induction false} ReplayConcat(l: Links, a: seq<Event>, b: seq<Event>)
    ensures Replay(l, a + b) == Replay(Replay(l, a), b)
    decreases |a|
  {
    if a == [] {
      assert a + b == b;
    } else {
      assert (a + b)[1..] == a[1..] + b;
      ReplayConcat(After(l, a[0]), a[1..], b);
    }
  }

  /** After a retry loop over the radio, the radio reports what the last
      attempt returned; the client's report is untouched. */
  lemma {:induction false} ReplayJoins(l: Links, outcomes: seq<bool>)
    requires |outcomes| > 0
    ensures Replay(l, JoinEvents(outcomes)) == Links(outcomes[|outcomes| - 1], l.session)
    decreases |outcomes|
  {
    var es := JoinEvents(outcomes);
    assert es[1..] == JoinEvents(outcomes[1..]);
    if |outcomes| > 1 {
      ReplayJoins(After(l, es[0]), outcomes[1..]);
    }
  }

  lemma {:induction false} ReplayConnects(l: Links, broker: string, outcomes: seq<bool>)
    requires |outcomes| > 0
    ensures Replay(l, ConnectEvents(broker, outcomes)) == Links(l.network, outcomes[|outcomes| - 1])
    decreases |outcomes|
  {
    var es := ConnectEvents(broker, outcomes);
    assert es[1..] == ConnectEvents(broker, outcomes[1..]);
    if |outcomes| > 1 {
      ReplayConnects(After(l, es[0]), broker, outcomes[1..]);
    }
  }

  /** One pass of loop() polls exactly once, as its last step, and by then the
      events before it have brought both the radio and the client up. */
  lemma PollsOnlyWhenConnected(networkUp: bool, sessionUp: bool, networkTries: seq<bool>, brokerTries: seq<bool>,
                               broker: string, deviceId: string)
    requires !networkUp ==> true in networkTries
    requires !sessionUp ==> true in brokerTries
    ensures var es := LoopEvents(networkUp, sessionUp, networkTries, brokerTries, broker, deviceId);
      && es[|es| - 1] == Poll && Poll !in es[..|es| - 1]
      && Replay(Links(networkUp, sessionUp), es[..|es| - 1]) == Links(true, true)
  {
    var es := LoopEvents(networkUp, sessionUp, networkTries, brokerTries, broker, deviceId);
    var network := if networkUp then [] else NetworkPhase(networkTries);
    var session := if sessionUp then [] else SessionPhase(broker, deviceId, brokerTries);
    assert es == (network + session) + [Poll];
    assert es[..|es| - 1] == network + session;
    NoPollBeforeLast(networkUp, sessionUp, networkTries, brokerTries, broker, deviceId);
    PhasesBringLinksUp(networkUp, sessionUp, networkTries, brokerTries, broker, deviceId);
  }

  lemma NoPollBeforeLast(networkUp: bool, sessionUp: bool, networkTries: seq<bool>, brokerTries: seq<bool>,
                         broker: string, deviceId: string)
    requires !networkUp ==> true in networkTries
    requires !sessionUp ==> true in brokerTries
    ensures Poll !in (if networkUp then [] else NetworkPhase(networkTries))
                     + (if sessionUp then [] else SessionPhase(broker, deviceId, brokerTries))
  {
    var network := if networkUp then [] else NetworkPhase(networkTries);
    var session := if sessionUp then [] else SessionPhase(broker, deviceId, brokerTries);
    if !networkUp {
      forall e | e in network ensures e.JoinNetwork? {
        JoinEventsAreJoins(Consumed(networkTries), e);
      }
    }
    if !sessionUp {
      var connects := ConnectEvents(broker, Consumed(brokerTries));
      assert session == connects + [Subscribe(CommandTopic(deviceId))];
      forall e | e in connects ensures e.ConnectBroker? {
        ConnectEventsAreConnects(broker, Consumed(brokerTries), e);
      }
    }
    assert Poll !in network && Poll !in session;
  }

  lemma PhasesBringLinksUp(networkUp: bool, sessionUp: bool, networkTries: seq<bool>, brokerTries: seq<bool>,
                           broker: string, deviceId: string)
    requires !networkUp ==> true in networkTries
    requires !sessionUp ==> true in brokerTries
    ensures Replay(Links(networkUp, sessionUp),
                   (if networkUp then [] else NetworkPhase(networkTries))
                   + (if sessionUp then [] else SessionPhase(broker, deviceId, brokerTries)))
            == Links(true, true)
  {
    var network := if networkUp then [] else NetworkPhase(networkTries);
    var session := if sessionUp then [] else SessionPhase(broker, deviceId, brokerTries);
    var start := Links(networkUp, sessionUp);
    ReplayConcat(start, network, session);
    var mid := Replay(start, network);
    if !networkUp {
      ReplayJoins(start, Consumed(networkTries));
    }
    assert mid == Links(true, sessionUp);
    if !sessionUp {
      var connects := ConnectEvents(broker, Consumed(brokerTries));
      ReplayConcat(mid, connects, [Subscribe(CommandTopic(deviceId))]);
      ReplayConnects(mid, broker, Consumed(brokerTries));
    }
  }
}
