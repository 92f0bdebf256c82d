/** The union of all fourteen control packets, one case per packet type. */
module Packets {
  import ConnackCodec
  import ConnectCodec
  import DisconnectCodec
  import PingreqCodec
  import PingrespCodec
  import PubackCodec
  import PubcompCodec
  import PublishCodec
  import PubrecCodec
  import PubrelCodec
  import SubackCodec
  import SubscribeCodec
  import UnsubackCodec
  import UnsubscribeCodec

  datatype MQTTPacket =
    | connack(connack: ConnackCodec.Connack)
    | connect(connect: ConnectCodec.Connect)
    | disconnect(disconnect: DisconnectCodec.Disconnect)
    | pingreq(pingreq: PingreqCodec.Pingreq)
    | pingresp(pingresp: PingrespCodec.Pingresp)
    | puback(puback: PubackCodec.Puback)
    | pubcomp(pubcomp: PubcompCodec.Pubcomp)
    | publish(publish: PublishCodec.Publish)
    | pubrec(pubrec: PubrecCodec.Pubrec)
    | pubrel(pubrel: PubrelCodec.Pubrel)
    | suback(suback: SubackCodec.Suback)
    | subscribe(subscribe: SubscribeCodec.Subscribe)
    | unsuback(unsuback: UnsubackCodec.Unsuback)
    | unsubscribe(unsubscribe: UnsubscribeCodec.Unsubscribe)
}
