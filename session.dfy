/**
 * `MQTTSession`: the client's protocol state. It records what the client has in
 * flight (`activeTasks`), which server-initiated QoS 1 and 2 exchanges it still
 * owes an answer (`passiveTasks`), and what it has subscribed to; it reports to
 * the application on the event bus and asks the connection to send packets on
 * the command bus, both modelled as append-only sequences.
 */
module Session {
  import opened Wrappers
  import opened Wire
  import opened Errors
  import opened ControlPacketType
  import opened QualityOfService
  import opened ConnectReturnCodes
  import opened Inflight
  import opened Packets
  import SubscribeCodec
  import PublishCodec
  import PubackCodec
  import PubrecCodec
  import PubrelCodec
  import PubcompCodec
  import ConnackCodec
  import ConnectCodec
  import PingreqCodec

  /** What the session reports to the application (`MQTTEvent`). */
  datatype MQTTEvent =
    | Received(packet: MQTTPacket)
    | ErrorEvent(error: MQTTError)
    | Warning(message: string)
    | Info(message: string)

  /** What the connection tells the session (`MQTTInternalEvent`). */
  datatype MQTTInternalEvent =
    | SendPacket(sent: MQTTPacket)
    | PacketArrived(arrived: MQTTPacket)
    | ConnectionErrorEvent(error: MQTTError)
    | ConnectionInactive
    | ConnectionActive

  /** What the session asks the connection to do (`MQTTInternalCommand`). */
  datatype MQTTInternalCommand = Send(packet: MQTTPacket)

  /** The timeout, in seconds, the session gives every publish and subscribe exchange. */
  const ExchangeTimeout: uint16 := 10

  /** The warning `handleConnack` gives for a refused connection; the source appends the return code. */
  const RejectedWarning: string := "Connection rejected with error code"

  /** The warning `handlePubrel` gives for an identifier the session does not owe an answer. */
  const UnknownPubrelWarning: string := "Received pubrel for unknown packetId"

  class MQTTSession {
    const connTimeout: uint16
    const pingTimeout: uint16
    var subscriptions: seq<SubscribeCodec.TopicFilter>
    var connackTask: Option<TimeoutTask>
    var pingrespTask: Option<TimeoutTask>
    var activeTasks: map<uint16, InflightTask>
    var passiveTasks: set<uint16>
    var events: seq<MQTTEvent>
    var commands: seq<MQTTInternalCommand>

    /** Every timer the session holds. */
    ghost function Timers(): set<TimeoutTask>
      reads this
    {
      (set id | id in activeTasks && activeTasks[id].timeout.Some? :: activeTasks[id].timeout.value)
      + (if connackTask.Some? then {connackTask.value} else {})
      + (if pingrespTask.Some? then {pingrespTask.value} else {})
    }

    /** Every timer the session holds keeps its own invariant. */
    ghost predicate Valid()
      reads this, Timers()
    {
      forall t :: t in Timers() ==> t.Valid()
    }

    /** The timer of the exchange with identifier `id`, if there is one. */
    ghost function TimerOf(id: uint16): set<TimeoutTask>
      reads this
    {
      if id in activeTasks && activeTasks[id].timeout.Some? then {activeTasks[id].timeout.value} else {}
    }

    ghost function ConnackTimer(): set<TimeoutTask>
      reads this
    {
      if connackTask.Some? then {connackTask.value} else {}
    }

    /** The one timer receiving `p` may stop. */
    ghost function Affected(p: MQTTPacket): set<TimeoutTask>
      reads this
    {
      match p
      case connack(_) => ConnackTimer()
      case suback(s) => TimerOf(s.packetId)
      case puback(a) => TimerOf(a.packetId)
      case pubrec(r) => TimerOf(r.packetId)
      case pubcomp(c) => TimerOf(c.packetId)
      case _ => {}
    }

    constructor(connTimeout: uint16, pingTimeout: uint16)
      ensures Valid() && this.connTimeout == connTimeout && this.pingTimeout == pingTimeout
      ensures subscriptions == [] && connackTask == None && pingrespTask == None
      ensures activeTasks == map[] && passiveTasks == {} && events == [] && commands == []
    {
      this.connTimeout := connTimeout;
      this.pingTimeout := pingTimeout;
      subscriptions := [];
      connackTask := None;
      pingrespTask := None;
      activeTasks := map[];
      passiveTasks := {};
      events := [];
      commands := [];
    }

    /** A new running timer with no caller and no result. */
    static method NewTimer(seconds: uint16, kind: TimeoutKind) returns (t: TimeoutTask)
      ensures fresh(t) && t.Valid() && t.timeout == seconds && t.kind == kind
      ensures t.timerRunning && t.waiter == None && t.completedResult == None && t.resumed == []
    {
      t := new TimeoutTask(seconds, kind);
      t.Start();
    }

    /** `id` now maps to a fresh running timer in `state`; every other entry is as before. */
    twostate predicate Installed(id: uint16, state: InflightState, kind: TimeoutKind)
      reads this, TimerOf(id)
    {
      && id in activeTasks
      && activeTasks == old(activeTasks)[id := activeTasks[id]]
      && activeTasks[id].state == state
      && activeTasks[id].timeout.Some?
      && var t := activeTasks[id].timeout.value;
         fresh(t) && t.timerRunning && t.kind == kind && t.timeout == ExchangeTimeout
         && t.waiter == None && t.completedResult == None && t.resumed == []
    }

    /** Installing a fresh valid timer keeps every timer valid. */
    method Install(id: uint16, state: InflightState, kind: TimeoutKind)
      requires Valid()
      modifies this
      ensures Valid() && Installed(id, state, kind)
      ensures subscriptions == old(subscriptions) && connackTask == old(connackTask) && pingrespTask == old(pingrespTask)
      ensures passiveTasks == old(passiveTasks) && events == old(events) && commands == old(commands)
    {
      var timeoutTask := NewTimer(ExchangeTimeout, kind);
      activeTasks := activeTasks[id := InflightTask(state, Some(timeoutTask))];
      forall t | t in Timers()
        ensures t.Valid()
      {
        if t != timeoutTask {
          assert t in old(Timers());
        }
      }
    }

    /** The warning `handleSendPublish` gives for a QoS 1 or 2 publish without an identifier. */
    static function SendWithoutIdWarning(qos: QoS): string
    {
      if qos == ExactlyOnce then "Attempt to send QoS 2 publish without packetId"
      else "Attempt to send QoS 1 publish without packetId"
    }

    /** The state a sent QoS 1 or 2 publish starts its exchange in. */
    static function PublishSentState(qos: QoS): InflightState
    {
      if qos == ExactlyOnce then PublishQoS2(PublishSent2) else PublishQoS1(PublishSent1)
    }

    /**
     * `handleSendPublish`: a QoS 1 or 2 publish with an identifier replaces whatever
     * entry that identifier had with a fresh `publishSent` entry; without an
     * identifier only a warning is emitted; QoS 0 changes nothing.
     */
    method HandleSendPublish(publish: PublishCodec.Publish)
      requires Valid()
      modifies this
      ensures Valid()
      ensures publish.qos == AtMostOnce ==> activeTasks == old(activeTasks) && events == old(events)
      ensures publish.qos != AtMostOnce && publish.packetId.None? ==>
        activeTasks == old(activeTasks) && events == old(events) + [Warning(SendWithoutIdWarning(publish.qos))]
      ensures publish.qos != AtMostOnce && publish.packetId.Some? ==>
        events == old(events)
        && Installed(publish.packetId.value, PublishSentState(publish.qos), PublishTimeout(publish.packetId.value, publish.qos))
      ensures subscriptions == old(subscriptions) && connackTask == old(connackTask) && pingrespTask == old(pingrespTask)
      ensures passiveTasks == old(passiveTasks) && commands == old(commands)
    {
      if publish.qos == AtMostOnce {
        return;
      }
      if publish.packetId.None? {
        events := events + [Warning(SendWithoutIdWarning(publish.qos))];
        return;
      }
      var packetId := publish.packetId.value;
      Install(packetId, PublishSentState(publish.qos), PublishTimeout(packetId, publish.qos));
    }

    /** `handleSendPubrel`: the identifier's entry becomes a fresh `pubRelSent` entry. */
    method HandleSendPubrel(pubrel: PubrelCodec.Pubrel)
      requires Valid()
      modifies this
      ensures Valid()
      ensures Installed(pubrel.packetId, PublishQoS2(PubRelSent), PublishTimeout(pubrel.packetId, ExactlyOnce))
      ensures subscriptions == old(subscriptions) && connackTask == old(connackTask) && pingrespTask == old(pingrespTask)
      ensures passiveTasks == old(passiveTasks) && events == old(events) && commands == old(commands)
    {
      Install(pubrel.packetId, PublishQoS2(PubRelSent), PublishTimeout(pubrel.packetId, ExactlyOnce));
    }

    /**
     * The effect of `handleSendPuback` and `handleSendPubcomp`: answering the
     * server ends the exchange; answering an exchange the session does not know
     * only warns. Nothing else changes.
     */
    twostate predicate ForgetEffect(packetId: uint16, warning: string)
      reads this
    {
      && (packetId in old(passiveTasks) ==> passiveTasks == old(passiveTasks) - {packetId} && events == old(events))
      && (packetId !in old(passiveTasks) ==> passiveTasks == old(passiveTasks) && events == old(events) + [Warning(warning)])
      && subscriptions == old(subscriptions) && connackTask == old(connackTask) && pingrespTask == old(pingrespTask)
      && activeTasks == old(activeTasks) && commands == old(commands)
    }

    /** `handleSendPuback` and `handleSendPubcomp`. */
    method ForgetPassive(packetId: uint16, warning: string)
      modifies this
      ensures ForgetEffect(packetId, warning)
    {
      if packetId !in passiveTasks {
        events := events + [Warning(warning)];
        return;
      }
      passiveTasks := passiveTasks - {packetId};
    }

    /** `handleSendPubrec`: only checks that the exchange is known; the set is never changed. */
    method HandleSendPubrec(pubrec: PubrecCodec.Pubrec)
      modifies this
      ensures pubrec.packetId in passiveTasks ==> events == old(events)
      ensures pubrec.packetId !in passiveTasks ==> events == old(events) + [Warning("Sent pubrec for unknown packetId")]
      ensures subscriptions == old(subscriptions) && connackTask == old(connackTask) && pingrespTask == old(pingrespTask)
      ensures activeTasks == old(activeTasks) && passiveTasks == old(passiveTasks) && commands == old(commands)
    {
      if pubrec.packetId !in passiveTasks {
        events := events + [Warning("Sent pubrec for unknown packetId")];
      }
    }

    /**
     * `handleSendSubscribe`: the filters are appended to the subscriptions, order
     * and duplicates kept, and the identifier gets a fresh `SubscribeSent` entry.
     */
    method HandleSendSubscribe(subscribe: SubscribeCodec.Subscribe)
      requires Valid()
      modifies this
      ensures Valid()
      ensures subscriptions == old(subscriptions) + subscribe.topics
      ensures Installed(subscribe.packetId, Subscribing(SubscribeSent), SubscribeTimeout(subscribe.packetId))
      ensures connackTask == old(connackTask) && pingrespTask == old(pingrespTask)
      ensures passiveTasks == old(passiveTasks) && events == old(events) && commands == old(commands)
    {
      subscriptions := subscriptions + subscribe.topics;
      Install(subscribe.packetId, Subscribing(SubscribeSent), SubscribeTimeout(subscribe.packetId));
    }

    /** `handleSendConnect`: a fresh running connect timer replaces the previous one. */
    method HandleSendConnect()
      requires Valid()
      modifies this
      ensures Valid()
      ensures connackTask.Some? && fresh(connackTask.value) && connackTask.value.timerRunning
      ensures connackTask.value.timeout == connTimeout && connackTask.value.kind == ConnectTimeout
      ensures connackTask.value.waiter == None && connackTask.value.completedResult == None && connackTask.value.resumed == []
      ensures subscriptions == old(subscriptions) && pingrespTask == old(pingrespTask) && activeTasks == old(activeTasks)
      ensures passiveTasks == old(passiveTasks) && events == old(events) && commands == old(commands)
    {
      var timer := NewTimer(connTimeout, ConnectTimeout);
      connackTask := Some(timer);
      forall t | t in Timers()
        ensures t.Valid()
      {
        if t != timer {
          assert t in old(Timers());
        }
      }
    }

    /** `handleSendPingreq`: a fresh running ping timer replaces the previous one. */
    method HandleSendPingreq()
      requires Valid()
      modifies this
      ensures Valid()
      ensures pingrespTask.Some? && fresh(pingrespTask.value) && pingrespTask.value.timerRunning
      ensures pingrespTask.value.timeout == pingTimeout && pingrespTask.value.kind == PingTimeout
      ensures pingrespTask.value.waiter == None && pingrespTask.value.completedResult == None && pingrespTask.value.resumed == []
      ensures subscriptions == old(subscriptions) && connackTask == old(connackTask) && activeTasks == old(activeTasks)
      ensures passiveTasks == old(passiveTasks) && events == old(events) && commands == old(commands)
    {
      var timer := NewTimer(pingTimeout, PingTimeout);
      pingrespTask := Some(timer);
      forall t | t in Timers()
        ensures t.Valid()
      {
        if t != timer {
          assert t in old(Timers());
        }
      }
    }

    /** The packets `handleSend` acts on: those whose header names the packet's own type, PINGREQ excepted. */
    static predicate Routed(packet: MQTTPacket)
    {
      match packet
      case connect(c) => c.fixedHeader.packetType == CONNECT
      case subscribe(s) => s.fixedHeader.packetType == SUBSCRIBE
      case publish(p) => p.fixedHeader.packetType == PUBLISH
      case puback(a) => a.fixedHeader.packetType == PUBACK
      case pubrec(r) => r.fixedHeader.packetType == PUBREC
      case pubrel(r) => r.fixedHeader.packetType == PUBREL
      case pubcomp(c) => c.fixedHeader.packetType == PUBCOMP
      case _ => false
    }

    /** The warning `handleSend` gives for answering an identifier the session does not know. */
    static function SentUnknownIdWarning(packet: MQTTPacket): string
    {
      match packet
      case puback(_) => "Sent puback for unkown packetId"
      case pubrec(_) => "Sent pubrec for unknown packetId"
      case pubcomp(_) => "Sent pubcomp for unknown packetId"
      case _ => ""
    }

    /** The timer sending `packet` starts, looked up after the send. */
    ghost function Opened(packet: MQTTPacket): set<TimeoutTask>
      reads this
    {
      match packet
      case publish(p) => if p.packetId.Some? then TimerOf(p.packetId.value) else {}
      case pubrel(r) => TimerOf(r.packetId)
      case subscribe(s) => TimerOf(s.packetId)
      case connect(_) => ConnackTimer()
      case _ => {}
    }

    /**
     * The whole effect of `handleSend(packet)`, case by case: the exchange it opens
     * or ends, the timer it starts, the warning it gives, and that every other
     * field is as before. Sending never issues a command or starts a ping timer.
     */
    twostate predicate SendEffect(packet: MQTTPacket)
      reads this, Opened(packet)
    {
      if !Routed(packet) then unchanged(this)
      else
        && commands == old(commands) && pingrespTask == old(pingrespTask)
        && match packet
           case publish(p) =>
             && subscriptions == old(subscriptions) && connackTask == old(connackTask) && passiveTasks == old(passiveTasks)
             && (p.qos == AtMostOnce ==> activeTasks == old(activeTasks) && events == old(events))
             && (p.qos != AtMostOnce && p.packetId.None? ==>
                   activeTasks == old(activeTasks) && events == old(events) + [Warning(SendWithoutIdWarning(p.qos))])
             && (p.qos != AtMostOnce && p.packetId.Some? ==>
                   events == old(events) && Installed(p.packetId.value, PublishSentState(p.qos), PublishTimeout(p.packetId.value, p.qos)))
           case pubrel(r) =>
             && subscriptions == old(subscriptions) && connackTask == old(connackTask) && passiveTasks == old(passiveTasks)
             && events == old(events) && Installed(r.packetId, PublishQoS2(PubRelSent), PublishTimeout(r.packetId, ExactlyOnce))
           case subscribe(s) =>
             && subscriptions == old(subscriptions) + s.topics && connackTask == old(connackTask) && passiveTasks == old(passiveTasks)
             && events == old(events) && Installed(s.packetId, Subscribing(SubscribeSent), SubscribeTimeout(s.packetId))
           case connect(_) =>
             && subscriptions == old(subscriptions) && activeTasks == old(activeTasks) && passiveTasks == old(passiveTasks)
             && events == old(events)
             && connackTask.Some? && fresh(connackTask.value)
             && connackTask.value.timeout == connTimeout && connackTask.value.kind == ConnectTimeout
             && connackTask.value.timerRunning && connackTask.value.waiter == None
             && connackTask.value.completedResult == None && connackTask.value.resumed == []
           case pubrec(r) =>
             && subscriptions == old(subscriptions) && activeTasks == old(activeTasks) && connackTask == old(connackTask)
             && passiveTasks == old(passiveTasks)
             && events == old(events) + (if r.packetId in old(passiveTasks) then [] else [Warning(SentUnknownIdWarning(packet))])
           case puback(a) => ForgetEffect(a.packetId, SentUnknownIdWarning(packet))
           case pubcomp(c) => ForgetEffect(c.packetId, SentUnknownIdWarning(packet))
           case _ => unchanged(this)
    }

    /**
     * `handleSend`: dispatch on the header's packet type, then on the packet's
     * kind. PINGREQ falls into the default case, so no ping timer is ever started,
     * and neither is anything done for a packet whose header names another type.
     */
    method HandleSend(packet: MQTTPacket)
      requires Valid()
      modifies this
      ensures Valid() && SendEffect(packet)
    {
      if !Routed(packet) {
        return;
      }
      if packet.publish? || packet.pubrel? || packet.subscribe? {
        SendOpening(packet);
      } else {
        SendClosing(packet);
      }
    }

    /** The cases of `handleSend` that start a client exchange: PUBLISH, PUBREL and SUBSCRIBE. */
    method SendOpening(packet: MQTTPacket)
      requires Valid() && Routed(packet) && (packet.publish? || packet.pubrel? || packet.subscribe?)
      modifies this
      ensures Valid() && SendEffect(packet)
    {
      match packet
      case subscribe(s) => HandleSendSubscribe(s);
      case publish(p) => HandleSendPublish(p);
      case pubrel(r) => HandleSendPubrel(r);
    }

    /** The cases of `handleSend` that answer or open a connection: CONNECT, PUBACK, PUBREC and PUBCOMP. */
    method SendClosing(packet: MQTTPacket)
      requires Valid() && Routed(packet) && !packet.publish? && !packet.pubrel? && !packet.subscribe?
      modifies this
      ensures Valid() && SendEffect(packet)
    {
      match packet
      case connect(_) => HandleSendConnect();
      case puback(a) => ForgetPassive(a.packetId, SentUnknownIdWarning(packet));
      case pubrec(r) => HandleSendPubrec(r);
      case pubcomp(c) => ForgetPassive(c.packetId, SentUnknownIdWarning(packet));
    }

    /**
     * `handleConnack`: an accepted connection stops and drops the connect timer
     * (if any); any other return code only warns.
     */
    method HandleConnack(connack: ConnackCodec.Connack)
      requires Valid()
      modifies this, ConnackTimer()
      ensures Valid()
      ensures connack.returnCode == ConnectionAccepted ==> connackTask == None && events == old(events)
      ensures connack.returnCode == ConnectionAccepted && old(connackTask).Some? ==> old(connackTask).value.Finished(Success)
      ensures connack.returnCode != ConnectionAccepted ==>
        connackTask == old(connackTask) && events == old(events) + [Warning(RejectedWarning)]
      ensures subscriptions == old(subscriptions) && pingrespTask == old(pingrespTask) && activeTasks == old(activeTasks)
      ensures passiveTasks == old(passiveTasks) && commands == old(commands)
    {
      if connack.returnCode == ConnectionAccepted {
        if connackTask.None? {
          return;
        }
        var timer := connackTask.value;
        assert timer in Timers();
        timer.Stop();
        connackTask := None;
        forall t | t in Timers()
          ensures t.Valid()
        {
          assert t in old(Timers());
        }
      } else {
        events := events + [Warning(RejectedWarning)];
      }
    }

    /**
     * `handleSuback`, `handlePuback`, `handlePubrec` and `handlePubcomp`: the
     * acknowledged entry is removed, whatever its state, and its timer stopped.
     * In particular PUBREC ends a QoS 2 exchange instead of advancing it to
     * `pubRecReceived`. An unknown identifier only warns.
     */
    method RemoveActive(packetId: uint16, warning: string)
      requires Valid()
      modifies this, TimerOf(packetId)
      ensures Valid()
      ensures packetId in old(activeTasks) ==> activeTasks == old(activeTasks) - {packetId} && events == old(events)
      ensures packetId in old(activeTasks) && old(activeTasks)[packetId].timeout.Some? ==>
        old(activeTasks)[packetId].timeout.value.Finished(Success)
      ensures packetId !in old(activeTasks) ==> activeTasks == old(activeTasks) && events == old(events) + [Warning(warning)]
      ensures subscriptions == old(subscriptions) && connackTask == old(connackTask) && pingrespTask == old(pingrespTask)
      ensures passiveTasks == old(passiveTasks) && commands == old(commands)
    {
      if packetId !in activeTasks {
        events := events + [Warning(warning)];
        return;
      }
      var inflightTask := activeTasks[packetId];
      activeTasks := activeTasks - {packetId};
      if inflightTask.timeout.Some? {
        var timer := inflightTask.timeout.value;
        assert timer in old(Timers());
        timer.Stop();
      }
      forall t | t in Timers()
        ensures t.Valid()
      {
        assert t in old(Timers());
      }
    }

    /** The warning `handlePublish` gives for a received QoS 1 or 2 publish without an identifier. */
    static function ReceiveWithoutIdWarning(qos: QoS): string
    {
      if qos == ExactlyOnce then "Received QoS 2 publish without packetId"
      else "Received QoS 1 publish without packetId"
    }

    /** The answer owed to a received QoS 1 or 2 publish: PUBACK or PUBREC. */
    static function Acknowledgement(qos: QoS, packetId: uint16): MQTTPacket
    {
      if qos == ExactlyOnce then pubrec(PubrecCodec.Make(packetId)) else puback(PubackCodec.Make(packetId))
    }

    /**
     * `handlePublish` (received): QoS 1 and 2 with an identifier ask for exactly
     * one acknowledgement, PUBACK or PUBREC, and record the exchange as owed;
     * without an identifier only a warning; QoS 0 nothing.
     */
    method HandlePublish(publish: PublishCodec.Publish)
      modifies this
      ensures publish.qos != AtMostOnce && publish.packetId.Some? ==>
        commands == old(commands) + [Send(Acknowledgement(publish.qos, publish.packetId.value))]
        && passiveTasks == old(passiveTasks) + {publish.packetId.value} && events == old(events)
      ensures publish.qos != AtMostOnce && publish.packetId.None? ==>
        commands == old(commands) && passiveTasks == old(passiveTasks)
        && events == old(events) + [Warning(ReceiveWithoutIdWarning(publish.qos))]
      ensures publish.qos == AtMostOnce ==> commands == old(commands) && passiveTasks == old(passiveTasks) && events == old(events)
      ensures subscriptions == old(subscriptions) && connackTask == old(connackTask) && pingrespTask == old(pingrespTask)
      ensures activeTasks == old(activeTasks)
    {
      if publish.qos == AtMostOnce {
        return;
      }
      if publish.packetId.None? {
        events := events + [Warning(ReceiveWithoutIdWarning(publish.qos))];
        return;
      }
      var packetId := publish.packetId.value;
      commands := commands + [Send(Acknowledgement(publish.qos, packetId))];
      passiveTasks := passiveTasks + {packetId};
    }

    /** `handlePubrel`: a known exchange is answered with PUBCOMP and stays recorded; an unknown one only warns. */
    method HandlePubrel(pubrel: PubrelCodec.Pubrel)
      modifies this
      ensures pubrel.packetId in passiveTasks ==>
        commands == old(commands) + [Send(pubcomp(PubcompCodec.Make(pubrel.packetId)))] && events == old(events)
      ensures pubrel.packetId !in passiveTasks ==>
        commands == old(commands) && events == old(events) + [Warning(UnknownPubrelWarning)]
      ensures subscriptions == old(subscriptions) && connackTask == old(connackTask) && pingrespTask == old(pingrespTask)
      ensures activeTasks == old(activeTasks) && passiveTasks == old(passiveTasks)
    {
      if pubrel.packetId !in passiveTasks {
        events := events + [Warning(UnknownPubrelWarning)];
        return;
      }
      commands := commands + [Send(pubcomp(PubcompCodec.Make(pubrel.packetId)))];
    }

    /** The identifier an acknowledgement from the server (SUBACK, PUBACK, PUBREC, PUBCOMP) refers to. */
    static function AcknowledgedId(packet: MQTTPacket): Option<uint16>
    {
      match packet
      case suback(s) => Some(s.packetId)
      case puback(a) => Some(a.packetId)
      case pubrec(r) => Some(r.packetId)
      case pubcomp(c) => Some(c.packetId)
      case _ => None
    }

    /** The warning `handlePacket` gives for an acknowledgement of an identifier with no exchange. */
    static function UnknownIdWarning(packet: MQTTPacket): string
    {
      match packet
      case suback(_) => "Received suback for unknown packetId"
      case puback(_) => "Received puback for unknown packetId"
      case pubrec(_) => "Received pubrec for unknown packetId"
      case pubcomp(_) => "Received pubcomp for unknown packetId"
      case _ => ""
    }

    /**
     * The whole effect of `handlePacket(packet)` on the session's fields, with the
     * events it reports appended to `base`: an acknowledgement ends its exchange
     * or warns, PUBLISH and PUBREL answer or warn, CONNACK clears the connect
     * timer or warns, and any other packet changes nothing. The ping timer and
     * the subscriptions never change.
     */
    twostate predicate ReceiveEffect(packet: MQTTPacket, base: seq<MQTTEvent>)
      reads this
    {
      && subscriptions == old(subscriptions) && pingrespTask == old(pingrespTask)
      && match packet
         case publish(p) =>
           && activeTasks == old(activeTasks) && connackTask == old(connackTask)
           && (p.qos == AtMostOnce ==> commands == old(commands) && passiveTasks == old(passiveTasks) && events == base)
           && (p.qos != AtMostOnce && p.packetId.None? ==>
                 commands == old(commands) && passiveTasks == old(passiveTasks)
                 && events == base + [Warning(ReceiveWithoutIdWarning(p.qos))])
           && (p.qos != AtMostOnce && p.packetId.Some? ==>
                 commands == old(commands) + [Send(Acknowledgement(p.qos, p.packetId.value))]
                 && passiveTasks == old(passiveTasks) + {p.packetId.value} && events == base)
         case pubrel(r) =>
           && activeTasks == old(activeTasks) && connackTask == old(connackTask) && passiveTasks == old(passiveTasks)
           && (r.packetId in old(passiveTasks) ==>
                 commands == old(commands) + [Send(pubcomp(PubcompCodec.Make(r.packetId)))] && events == base)
           && (r.packetId !in old(passiveTasks) ==> commands == old(commands) && events == base + [Warning(UnknownPubrelWarning)])
         case connack(c) =>
           && activeTasks == old(activeTasks) && passiveTasks == old(passiveTasks) && commands == old(commands)
           && (c.returnCode == ConnectionAccepted ==> connackTask == None && events == base)
           && (c.returnCode != ConnectionAccepted ==> connackTask == old(connackTask) && events == base + [Warning(RejectedWarning)])
         case _ =>
           && connackTask == old(connackTask) && passiveTasks == old(passiveTasks) && commands == old(commands)
           && (AcknowledgedId(packet).None? ==> activeTasks == old(activeTasks) && events == base)
           && (AcknowledgedId(packet).Some? && AcknowledgedId(packet).value in old(activeTasks) ==>
                 activeTasks == old(activeTasks) - {AcknowledgedId(packet).value} && events == base)
           && (AcknowledgedId(packet).Some? && AcknowledgedId(packet).value !in old(activeTasks) ==>
                 activeTasks == old(activeTasks) && events == base + [Warning(UnknownIdWarning(packet))])
    }

    /**
     * `handlePacket`: the receive handlers; every other packet is ignored. The
     * timer of an acknowledged exchange, and the connect timer on an accepted
     * CONNACK, finish with success.
     */
    method HandlePacket(packet: MQTTPacket)
      requires Valid()
      modifies this, Affected(packet)
      ensures Valid() && ReceiveEffect(packet, old(events))
      ensures AcknowledgedId(packet).Some? && AcknowledgedId(packet).value in old(activeTasks)
              && old(activeTasks)[AcknowledgedId(packet).value].timeout.Some? ==>
        old(activeTasks)[AcknowledgedId(packet).value].timeout.value.Finished(Success)
      ensures packet.connack? && packet.connack.returnCode == ConnectionAccepted && old(connackTask).Some? ==>
        old(connackTask).value.Finished(Success)
    {
      if AcknowledgedId(packet).Some? {
        RemoveActive(AcknowledgedId(packet).value, UnknownIdWarning(packet));
      } else {
        ReceiveOther(packet);
      }
    }

    /** The cases of `handlePacket` that acknowledge nothing: PUBLISH, PUBREL, CONNACK and the ignored rest. */
    method ReceiveOther(packet: MQTTPacket)
      requires Valid() && AcknowledgedId(packet).None?
      modifies this, Affected(packet)
      ensures Valid() && ReceiveEffect(packet, old(events))
      ensures packet.connack? && packet.connack.returnCode == ConnectionAccepted && old(connackTask).Some? ==>
        old(connackTask).value.Finished(Success)
    {
      match packet
      case pubrel(r) => HandlePubrel(r);
      case publish(p) => HandlePublish(p);
      case connack(c) => HandleConnack(c);
      case _ =>
    }

    /**
     * `handle`: a received packet is first reported, then handled; connection
     * events are only reported, as an error, a warning or information.
     */
    method Handle(event: MQTTInternalEvent)
      requires Valid()
      modifies this, if event.PacketArrived? then Affected(event.arrived) else {}
      ensures Valid()
      ensures event.SendPacket? ==> SendEffect(event.sent)
      ensures event.PacketArrived? ==> ReceiveEffect(event.arrived, old(events) + [Received(event.arrived)])
      ensures event.PacketArrived? && AcknowledgedId(event.arrived).Some? && AcknowledgedId(event.arrived).value in old(activeTasks)
              && old(activeTasks)[AcknowledgedId(event.arrived).value].timeout.Some? ==>
        old(activeTasks)[AcknowledgedId(event.arrived).value].timeout.value.Finished(Success)
      ensures event.PacketArrived? && event.arrived.connack? && event.arrived.connack.returnCode == ConnectionAccepted
              && old(connackTask).Some? ==>
        old(connackTask).value.Finished(Success)
      ensures event.ConnectionErrorEvent? ==> events == old(events) + [ErrorEvent(event.error)]
      ensures event.ConnectionInactive? ==> events == old(events) + [Warning("Connection inactive")]
      ensures event.ConnectionActive? ==> events == old(events) + [Info("Connection active")]
      ensures !event.SendPacket? && !event.PacketArrived? ==>
        activeTasks == old(activeTasks) && passiveTasks == old(passiveTasks) && subscriptions == old(subscriptions)
        && commands == old(commands) && connackTask == old(connackTask) && pingrespTask == old(pingrespTask)
    {
      match event
      case SendPacket(p) => HandleSend(p);
      case PacketArrived(p) =>
        events := events + [Received(p)];
        assert Affected(p) == old(Affected(p));
        HandlePacket(p);
      case ConnectionErrorEvent(e) => events := events + [ErrorEvent(e)];
      case ConnectionInactive => events := events + [Warning("Connection inactive")];
      case ConnectionActive => events := events + [Info("Connection active")];
    }

    /**
     * `awaitSuback`, `awaitPuback`, `awaitPubrec` and `awaitPubComp`: the caller
     * waits on the entry's timer only when the entry exists and is in the expected
     * state; otherwise it returns at once, without an error.
     */
    method AwaitActive(packetId: uint16, expected: InflightState, w: Waiter)
      requires Valid()
      modifies TimerOf(packetId)
      ensures Valid()
      ensures packetId in activeTasks && activeTasks[packetId].state == expected && activeTasks[packetId].timeout.Some? ==>
        activeTasks[packetId].timeout.value.WaitedOn(w)
      ensures !(packetId in activeTasks && activeTasks[packetId].state == expected) ==> unchanged(TimerOf(packetId))
    {
      if packetId !in activeTasks || activeTasks[packetId].state != expected || activeTasks[packetId].timeout.None? {
        return;
      }
      var timer := activeTasks[packetId].timeout.value;
      assert timer in Timers();
      timer.Wait(w);
      forall t | t in Timers()
        ensures t.Valid()
      {
      }
    }

    /** `awaitConack`: waits on the connect timer if there is one. */
    method AwaitConnack(w: Waiter)
      requires Valid()
      modifies ConnackTimer()
      ensures Valid()
      ensures connackTask.Some? ==> connackTask.value.WaitedOn(w)
    {
      if connackTask.None? {
        return;
      }
      var timer := connackTask.value;
      assert timer in Timers();
      timer.Wait(w);
      forall t | t in Timers()
        ensures t.Valid()
      {
      }
    }

    /** `awaitPingresp`: waits on the ping timer if there is one; since no ping timer is ever started, it returns at once. */
    method AwaitPingresp(w: Waiter)
      requires Valid()
      modifies if pingrespTask.Some? then {pingrespTask.value} else {}
      ensures Valid()
      ensures pingrespTask.Some? ==> pingrespTask.value.WaitedOn(w)
    {
      if pingrespTask.None? {
        return;
      }
      var timer := pingrespTask.value;
      assert timer in Timers();
      timer.Wait(w);
      forall t | t in Timers()
        ensures t.Valid()
      {
      }
    }
  }
}

/** Whole exchanges driven through the session's entry points. */
module SessionScenarios {
  import opened Wrappers
  import opened Wire
  import opened QualityOfService
  import opened Inflight
  import opened Packets
  import opened Session
  import opened Errors
  import PublishCodec
  import PubackCodec
  import PubrecCodec
  import PubrelCodec
  import PubcompCodec

  /**
   * Client QoS 2 publish: the PUBREC removes the entry and completes its timer,
   * so a caller waiting for it afterwards is never suspended; sending PUBREL
   * starts a new `pubRelSent` entry whose waiter the PUBCOMP resumes with success.
   * Nothing is left in flight for `id` afterwards.
   */
  method ClientExactlyOnce(s: MQTTSession, id: uint16, topic: seq<byte>, payload: seq<byte>, w: Waiter)
      returns (first: TimeoutTask, second: TimeoutTask)
    requires s.Valid() && |topic| < 0x1_0000
    modifies s
    ensures fresh(first) && fresh(second) && first != second
    ensures first.kind == PublishTimeout(id, ExactlyOnce) && !first.timerRunning
    ensures first.resumed == [] && first.completedResult == Some(Success)
    ensures second.kind == PublishTimeout(id, ExactlyOnce) && !second.timerRunning
    ensures second.resumed == [Resumption(w, Success)] && second.completedResult == None
    ensures s.Valid()
    ensures id !in s.activeTasks
    ensures s.activeTasks == old(s.activeTasks) - {id}
    ensures s.commands == old(s.commands) && s.passiveTasks == old(s.passiveTasks)
  {
    first := ClientPublishReceived(s, id, topic, payload, w);
    second := ClientReleaseCompleted(s, id, w);
  }

  /** The first half: PUBLISH out, PUBREC in, and a wait that is never suspended. */
  method ClientPublishReceived(s: MQTTSession, id: uint16, topic: seq<byte>, payload: seq<byte>, w: Waiter)
      returns (first: TimeoutTask)
    requires s.Valid() && |topic| < 0x1_0000
    modifies s
    ensures fresh(first)
    ensures first.kind == PublishTimeout(id, ExactlyOnce) && !first.timerRunning
    ensures first.resumed == [] && first.completedResult == Some(Success)
    ensures s.Valid() && id !in s.activeTasks
    ensures s.activeTasks == old(s.activeTasks) - {id}
    ensures s.commands == old(s.commands) && s.passiveTasks == old(s.passiveTasks)
  {
    var message := PublishCodec.Make(topic, payload, Some(id), false, ExactlyOnce, false);
    s.HandleSend(publish(message));
    assert s.activeTasks[id].state == PublishQoS2(PublishSent2);
    first := s.activeTasks[id].timeout.value;
    label published:
    s.HandlePacket(pubrec(PubrecCodec.Make(id)));
    assert first.Finished@published(Success);
    assert id !in s.activeTasks;
    s.AwaitActive(id, PublishQoS2(PublishSent2), w);
  }

  /** The second half: PUBREL out, a waiter, and the PUBCOMP that resumes it. */
  method ClientReleaseCompleted(s: MQTTSession, id: uint16, w: Waiter) returns (second: TimeoutTask)
    requires s.Valid() && id !in s.activeTasks
    modifies s
    ensures fresh(second)
    ensures second.kind == PublishTimeout(id, ExactlyOnce) && !second.timerRunning
    ensures second.resumed == [Resumption(w, Success)] && second.completedResult == None
    ensures s.Valid() && id !in s.activeTasks
    ensures s.activeTasks == old(s.activeTasks)
    ensures s.commands == old(s.commands) && s.passiveTasks == old(s.passiveTasks)
  {
    s.HandleSend(pubrel(PubrelCodec.Make(id)));
    assert s.activeTasks[id].state == PublishQoS2(PubRelSent);
    second := s.activeTasks[id].timeout.value;
    s.AwaitActive(id, PublishQoS2(PubRelSent), w);
    assert second.waiter == Some(w);
    label released:
    s.HandlePacket(pubcomp(PubcompCodec.Make(id)));
    assert second.Finished@released(Success);
  }

  /**
   * A QoS 0 publish sent through `handle` opens no exchange and changes nothing
   * else: no warning, no command, no subscription.
   */
  method SendQoS0Publish(s: MQTTSession, topic: seq<byte>, payload: seq<byte>)
    requires s.Valid() && |topic| < 0x1_0000
    modifies s
    ensures s.Valid()
    ensures s.activeTasks == old(s.activeTasks) && s.passiveTasks == old(s.passiveTasks)
    ensures s.subscriptions == old(s.subscriptions) && s.events == old(s.events) && s.commands == old(s.commands)
    ensures s.connackTask == old(s.connackTask) && s.pingrespTask == old(s.pingrespTask)
  {
    var message := PublishCodec.Make(topic, payload, None, false, AtMostOnce, false);
    s.Handle(SendPacket(publish(message)));
  }

  /**
   * Whatever arrives, `handle` keeps the event history, reports the packet next,
   * and adds at most one warning after it.
   */
  method ArrivalReported(s: MQTTSession, p: MQTTPacket)
    requires s.Valid()
    modifies s, s.Affected(p)
    ensures s.Valid()
    ensures s.events == old(s.events) + [Received(p)]
         || (|s.events| == |old(s.events)| + 2 && s.events[..|old(s.events)| + 1] == old(s.events) + [Received(p)]
             && s.events[|old(s.events)| + 1].Warning?)
  {
    s.Handle(PacketArrived(p));
  }

  /**
   * Server QoS 2 publish: the session answers PUBREC, then PUBCOMP to the PUBREL,
   * and forgets the exchange once the PUBCOMP has been sent.
   */
  method ServerExactlyOnce(s: MQTTSession, id: uint16, topic: seq<byte>, payload: seq<byte>)
    requires s.Valid() && |topic| < 0x1_0000
    modifies s
    ensures s.Valid()
    ensures s.commands == old(s.commands) + [Send(pubrec(PubrecCodec.Make(id))), Send(pubcomp(PubcompCodec.Make(id)))]
    ensures s.passiveTasks == old(s.passiveTasks) - {id}
    ensures s.activeTasks == old(s.activeTasks)
  {
    var message := PublishCodec.Make(topic, payload, Some(id), false, ExactlyOnce, false);
    s.HandlePacket(publish(message));
    assert id in s.passiveTasks;
    s.HandlePacket(pubrel(PubrelCodec.Make(id)));
    s.HandleSend(pubcomp(PubcompCodec.Make(id)));
  }
}
