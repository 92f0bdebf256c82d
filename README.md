# SwiftMQTT core, modelled in Dafny

This project models the protocol core of SwiftMQTT, an MQTT 3.1.1 client written in Swift. It covers five parts:

- **Wire codec.** The Remaining Length variable integer and its decoder; big-endian two-byte integers; the fixed header; and the encoders and decoders of all fourteen control packets. These are functions over `seq<byte>`, and loops become methods proved against them.
- **Streaming framer.** `PacketParser` buffers received bytes, peels off complete frames and dispatches them on their first byte. It is a class with a `buffer: seq<byte>` field.
- **Packet-identifier allocator.** A rotating cursor over 1..65535 that skips identifiers already allocated.
- **Timeouts and the session.** `TimeoutTask` is the one-shot timer a caller can wait on. `MQTTSession` is the state machine with its in-flight table (`activeTasks`), its set of server-initiated exchanges (`passiveTasks`), its subscription list, and its event and command buses. The buses are append-only sequences.
- **Packet buffer.** `PacketBuffer` is a fixed-size ring buffer that overwrites its oldest element when full and hands packets straight to waiting consumers.

Each module follows one Swift file. Pure Swift code is modelled as functions and lemmas; code that changes state is modelled as classes whose methods state their new state in full.

## Model

| member | source | states |
|---|---|---|
| ControlPacketType.FromRaw | Sources/SwiftMQTT/MQTT/MQTTPacket/MQTTControlPacketType.swift:1-15 | a type nibble names a packet type exactly when it is 1..14, and then its raw value is that nibble |
| ControlPacketType.RawValue | Sources/SwiftMQTT/MQTT/MQTTPacket/MQTTControlPacketType.swift:1-15 | raw values lie in 1..14, and shifted left by four they fit a byte with a clear low nibble |
| ControlPacketType.RawValueRoundTrip | Sources/SwiftMQTT/MQTT/MQTTPacket/MQTTControlPacketType.swift:1-15 | reading back a type's raw value gives the type |
| ControlPacketType.RawValueInjective | Sources/SwiftMQTT/MQTT/MQTTPacket/MQTTControlPacketType.swift:1-15 | distinct types have distinct raw values |
| ControlPacketType.NamesDistinct | Sources/SwiftMQTT/MQTT/MQTTPacket/MQTTControlPacketType.swift:17-48 | `toString` gives distinct types distinct names |
| QualityOfService.FromRaw | Sources/SwiftMQTT/MQTTPacket/Packets/Publish.swift:83-85 | a QoS value is read exactly from 0..2, and its raw value is the value read |
| QualityOfService.QoSRoundTrip | Sources/SwiftMQTT/MQTTPacket/Packets/Publish.swift:83-85 | reading back a level's raw value gives the level |
| Wire.EncodeUInt | Sources/SwiftMQTT/MQTT/MQTTPacket/Utils/EncodeUInt.swift:1-14 | the encoding loop produces exactly the Remaining Length encoding of its input |
| Wire.VarIntOfZero | Sources/SwiftMQTT/MQTT/MQTTPacket/Utils/EncodeUInt.swift:1-14 | zero encodes as the single byte 0x00 |
| Wire.VarIntContinuation | Sources/SwiftMQTT/MQTT/MQTTPacket/Utils/EncodeUInt.swift:7-10 | every byte but the last has bit 7 set, and the last has it clear |
| Wire.VarIntValue | Sources/SwiftMQTT/MQTT/MQTTPacket/Utils/EncodeUInt.swift:5-6 | the 7-bit groups, least significant first, sum to the input |
| Wire.VarIntMinimal | Sources/SwiftMQTT/MQTT/MQTTPacket/Utils/EncodeUInt.swift:1-14 | the last byte is non-zero unless the input is zero |
| Wire.VarIntLength | Sources/SwiftMQTT/MQTT/MQTTPacket/Utils/EncodeUInt.swift:1-14 | the encoding fits in k bytes exactly when the input is below 128^k |
| Wire.VarIntAtMostFour | Sources/SwiftMQTT/MQTT/MQTTPacket/Utils/EncodeUInt.swift:1-14 | inputs below 268,435,456 are exactly those that encode in at most four bytes |
| Wire.EncodeUInt16 | Sources/SwiftMQTT/MQTT/MQTTPacket/Utils/EncodeUInt.swift:16-21 | two bytes, high byte first, whose big-endian value is the input |
| Wire.DecodeUInt16 | Sources/SwiftMQTT/MQTTPacket/Packets/Puback.swift:44-46 | the high byte is the quotient by 256 and the low byte the remainder |
| Wire.UInt16RoundTrip | Sources/SwiftMQTT/MQTT/MQTTPacket/Utils/EncodeUInt.swift:16-21 | decoding an encoded two-byte integer gives it back |
| Wire.LengthPrefixedRoundTrip | Sources/SwiftMQTT/MQTTPacket/Packets/Subscribe.swift:33-43 | a length-prefixed field is read back with exactly the bytes that follow it left over |
| RemainingLengthDecoding.ReadLength | Sources/SwiftMQTT/MQTT/MQTTPacket/Utils/DecodeRemainingLength.swift:1-22 | success consumes between the starting index and four length bytes, all within the data |
| RemainingLengthDecoding.RemainingLength | Sources/SwiftMQTT/MQTT/MQTTPacket/Utils/DecodeRemainingLength.swift:1-22 | success reports 1 to 4 length bytes, all present after byte 0 |
| RemainingLengthDecoding.DecodeRemainingLengthAsWritten | Sources/SwiftMQTT/MQTT/MQTTPacket/Utils/DecodeRemainingLength.swift:1-22 | the unguarded loop computes the decoded field whenever every byte it reads is present |
| RemainingLengthDecoding.DecodeRemainingLength | Sources/SwiftMQTT/MQTT/MQTTPacket/Utils/DecodeRemainingLength.swift:1-22 | the loop with its bounds guard restored computes the decoded field on every input |
| RemainingLengthDecoding.RemainingLengthMeaning | Sources/SwiftMQTT/MQTT/MQTTPacket/Utils/DecodeRemainingLength.swift:11-21 | the field spans bytes 1..n with n from 1 to 4, bytes before n have bit 7 set and byte n has it clear, and the value is the sum of their 7-bit groups, below 268,435,456 |
| RemainingLengthDecoding.RemainingLengthFailure | Sources/SwiftMQTT/MQTT/MQTTPacket/Utils/DecodeRemainingLength.swift:16-18 | decoding fails exactly when a length byte is missing or a fifth one would be read, and reports a malformed length |
| RemainingLengthDecoding.RemainingLengthRoundTrip | Sources/SwiftMQTT/MQTT/MQTTPacket/Utils/DecodeRemainingLength.swift:1-22 | any first byte, then the encoding of x below 2^28, then anything, decodes to x with the encoding's length |
| RemainingLengthDecoding.LengthPrefixStable | Sources/SwiftMQTT/MQTT/MQTTClient/PacketParser.swift:21-24 | once the field decodes, bytes received later do not change it |
| RemainingLengthDecoding.FirstByteIgnored | Sources/SwiftMQTT/MQTT/MQTTPacket/Utils/DecodeRemainingLength.swift:4-11 | byte 0 is never read |
| RemainingLengthDecoding.SuccessReadsInBounds | Sources/SwiftMQTT/MQTT/MQTTPacket/Utils/DecodeRemainingLength.swift:8-11 | wherever the guarded decoder succeeds, the unguarded loop reads only present bytes |
| FixedHeaders.FirstByte | Sources/SwiftMQTT/MQTT/MQTTPacket/FixedHeader.swift:9 | with flags below 16 the first byte is the type in the high nibble and the flags in the low one |
| FixedHeaders.NibbleOr | Sources/SwiftMQTT/MQTT/MQTTPacket/FixedHeader.swift:9 | the shifted type ORed with any flags byte stays within UInt8, and ORing a nibble adds it |
| FixedHeaders.Encode | Sources/SwiftMQTT/MQTT/MQTTPacket/FixedHeader.swift:6-13 | the header is one byte longer than the length field |
| FixedHeaders.HeaderRoundTrip | Sources/SwiftMQTT/MQTT/MQTTPacket/FixedHeader.swift:6-13 | an encoded header gives back its type, flags, remaining length and length-field size |
| FixedHeaders.ConnackHeaderBytes | Tests/SwiftMQTTTests/MQTTControlPacketTests.swift:25 | the CONNACK header with length 2 is `[0x20, 0x02]` |
| FixedHeaders.SplitFrameRoundTrip | Sources/SwiftMQTT/MQTT/MQTTPacket/FixedHeader.swift:6-13 | a header followed by a body of its remaining length splits back into the first byte and that body |
| HeaderGuards.CheckTypeAndFlags | Sources/SwiftMQTT/MQTTPacket/Packets/Puback.swift:29-41 | the guard passes exactly for the expected type and flags, and otherwise reports invalid type, wrong type or wrong flags in that order |
| ConnectReturnCodes.FromRaw | Sources/SwiftMQTT/MQTTPacket/Packets/Connack.swift:1-8 | return codes are read exactly from 0..6, with `Reserved` as 6 |
| ConnectReturnCodes.ReturnCodeRoundTrip | Sources/SwiftMQTT/MQTTPacket/Packets/Connack.swift:1-8 | reading back a code's raw value gives the code |
| ConnackCodec.Decode | Sources/SwiftMQTT/MQTTPacket/Packets/Connack.swift:65-99 | a CONNACK decodes exactly when its bytes are 0x20, 2, a session flag of 0 or 1 and a code up to 6, and it re-encodes to those four bytes |
| ConnackCodec.DecodeRejections | Sources/SwiftMQTT/MQTTPacket/Packets/Connack.swift:82-95 | a bad length byte, session flag or return code is reported with its own reason |
| ConnackCodec.EncodeLayout | Sources/SwiftMQTT/MQTTPacket/Packets/Connack.swift:42-49 | a CONNACK encodes as `[0x20, 0x02, sessionPresent, returnCode]` |
| ConnackCodec.RoundTrip | Sources/SwiftMQTT/MQTTPacket/Packets/Connack.swift:101-117 | every CONNACK decodes back from its encoding |
| ConnackCodec.AcceptedVector | Tests/SwiftMQTTTests/MQTTControlPacketTests.swift:12-28 | `[0x20,0x02,0x00,0x00]` is an accepted CONNACK without a session, both ways |
| ConnectCodec.MakeFlags | Sources/SwiftMQTT/MQTTPacket/Packets/Connect.swift:11-33 | the will flags are set exactly with a last will, username with credentials, and password only when the credentials carry one |
| ConnectCodec.FlagsRoundTrip | Sources/SwiftMQTT/MQTTPacket/Packets/Connect.swift:35-61 | the connect-flags byte decodes back to the flags it encodes |
| ConnectCodec.FlagsByteRoundTrip | Sources/SwiftMQTT/MQTTPacket/Packets/Connect.swift:35-61 | every decodable flags byte is the encoding of what it decodes to |
| ConnectCodec.EncodeVariableHeader | Sources/SwiftMQTT/MQTTPacket/Packets/Connect.swift:85-95 | the variable header is the protocol name plus six bytes |
| ConnectCodec.PayloadRoundTrip | Sources/SwiftMQTT/MQTTPacket/Packets/Connect.swift:122-149 | client id, will topic and message, username and password read back in order when the flags say they are present |
| ConnectCodec.MadeAgrees | Sources/SwiftMQTT/MQTTPacket/Packets/Connect.swift:103-120 | the payload built from a last will and credentials holds exactly the fields the flags announce |
| ConnectCodec.Make | Sources/SwiftMQTT/MQTTPacket/Packets/Connect.swift:164-187 | protocol MQTT level 4, keep-alive 60, the flags and payload of the arguments, and a remaining length covering both |
| ConnectCodec.KeepAliveIgnored | Sources/SwiftMQTT/MQTTPacket/Packets/Connect.swift:179 | the keep-alive argument has no effect on the packet |
| ConnectCodec.VariableHeaderLayout | Sources/SwiftMQTT/MQTTPacket/Packets/Connect.swift:85-95 | the variable header is length 4, "MQTT", level 4, the flags byte and keep-alive 60 |
| ConnectCodec.ParseEncoded | Sources/SwiftMQTT/MQTTPacket/Packets/Connect.swift:189-195 | an encoded CONNECT parses back to itself |
| ConnectCodec.RoundTrip | Sources/SwiftMQTT/MQTTPacket/Packets/Connect.swift:164-195 | every CONNECT the initialiser builds parses back from its encoding |
| ConnectCodec.Vector | Tests/SwiftMQTTTests/MQTTControlPacketTests.swift:42-49 | `Connect("swift-1", 60)` has remaining length 19 and encodes to the expected bytes |
| PublishCodec.Flags | Sources/SwiftMQTT/MQTTPacket/Packets/Publish.swift:125-132 | the flags nibble holds dup in bit 3, QoS in bits 2-1 and retain in bit 0 |
| PublishCodec.EncodeVariableHeader | Sources/SwiftMQTT/MQTTPacket/Packets/Publish.swift:18-29 | the variable header is the prefixed topic plus two bytes when an identifier is present |
| PublishCodec.Make | Sources/SwiftMQTT/MQTTPacket/Packets/Publish.swift:117-166 | a PUBLISH whose remaining length counts the topic, its prefix, any identifier and the message |
| PublishCodec.Decode | Sources/SwiftMQTT/MQTTPacket/Packets/Publish.swift:74-114 | decoding fails exactly on a reserved type nibble, QoS 3, a malformed Remaining Length, or a topic that is not well-formed UTF-8, each with its own error (the last is `unexpectedError("Unable to decode topic name")`); on success the topic is the frame's topic field, the flags give dup, QoS and retain, and an identifier is present exactly for QoS above 0 |
| PublishCodec.EncodeLayout | Sources/SwiftMQTT/MQTTPacket/Packets/Publish.swift:168-175 | header, prefixed topic, optional identifier, then the payload |
| PublishCodec.RoundTrip | Sources/SwiftMQTT/MQTTPacket/Packets/Publish.swift:117-175 | a PUBLISH whose identifier is present exactly when its QoS is above 0, and whose topic is well-formed UTF-8 as every String's is, decodes back from its encoding |
| PublishCodec.QoS0IdentifierBecomesPayload | Sources/SwiftMQTT/MQTTPacket/Packets/Publish.swift:24-26 | an identifier given to a QoS 0 publish is written, then decoded as the start of the payload |
| PublishCodec.Vector | Tests/SwiftMQTTTests/MQTTControlPacketTests.swift:52-88 | the QoS 0 "test/topic"/"hello" publish encodes to `0x30,0x11,0x00,0x0a,...` and decodes back |
| PublishCodec.AsciiRoundTrip | Sources/SwiftMQTT/MQTTPacket/Packets/Publish.swift:117-175 | a QoS 0 PUBLISH with an ASCII topic decodes back from its encoding |
| PublishCodec.NonUtf8TopicRejected | Sources/SwiftMQTT/MQTTPacket/Packets/Publish.swift:5-11 | the frame `[0x30, 0x03, 0x00, 0x01, 0xFF]`, whose topic is the byte 0xFF, is rejected with the topic error |
| Utf8.CharLength | Sources/SwiftMQTT/MQTTPacket/Packets/Publish.swift:5-11 | the length of the character at the head is at most 4 and within the input, and is 1 exactly for an ASCII byte |
| Utf8.EncodedCharLength | Sources/SwiftMQTT/MQTTPacket/Packets/Publish.swift:18-24 | reading the UTF-8 form of any scalar value, whatever follows it, takes exactly its bytes |
| Utf8.EncodedTextWellFormed | Sources/SwiftMQTT/MQTTPacket/Packets/Publish.swift:18-24 | the UTF-8 form of every String is well-formed, so a topic the client encodes always decodes |
| Utf8.AsciiWellFormed | Sources/SwiftMQTT/MQTTPacket/Packets/Publish.swift:5-11 | ASCII bytes are well-formed UTF-8 |
| Utf8.BadLeadByte | Sources/SwiftMQTT/MQTTPacket/Packets/Publish.swift:5-11 | bytes starting with 0x80..0xC1 or 0xF5..0xFF are not well-formed UTF-8 |
| PubackCodec.Decode | Sources/SwiftMQTT/MQTTPacket/Packets/Puback.swift:28-50 | decodes exactly when byte 0 is 0x40; the identifier is bytes 2-3 big-endian and the length byte is copied unchecked |
| PubackCodec.EncodeLayout | Sources/SwiftMQTT/MQTTPacket/Packets/Puback.swift:23-26 | `Puback(id)` encodes as `[0x40, 0x02, hi, lo]` |
| PubackCodec.RoundTrip | Sources/SwiftMQTT/MQTTPacket/Packets/Puback.swift:28-60 | a PUBACK with a one-byte length decodes back from its encoding, whatever follows |
| PubackCodec.Vector | Tests/SwiftMQTTTests/MQTTControlPacketTests.swift:97-107 | `[0x40,0x02,0x00,0x01]` is `Puback(1)`, both ways |
| PubrecCodec.Decode | Sources/SwiftMQTT/MQTTPacket/Packets/Pubrec.swift:28-50 | decodes exactly when byte 0 is 0x50; identifier from bytes 2-3, length byte copied unchecked |
| PubrecCodec.WrongTypeReportsPubcomp | Sources/SwiftMQTT/MQTTPacket/Packets/Pubrec.swift:34-36 | a wrong packet type is reported as expecting PUBCOMP |
| PubrecCodec.EncodeLayout | Sources/SwiftMQTT/MQTTPacket/Packets/Pubrec.swift:23-26 | `Pubrec(id)` encodes as `[0x50, 0x02, hi, lo]` |
| PubrecCodec.RoundTrip | Sources/SwiftMQTT/MQTTPacket/Packets/Pubrec.swift:28-61 | a PUBREC with a one-byte length decodes back from its encoding |
| PubrecCodec.Vector | Tests/SwiftMQTTTests/MQTTControlPacketTests.swift:116-126 | `[0x50,0x02,0x00,0x01]` is `Pubrec(1)`, both ways |
| PubrelCodec.Decode | Sources/SwiftMQTT/MQTTPacket/Packets/Pubrel.swift:28-52 | decodes exactly when byte 0 is 0x62, to `Pubrel(id)` with the id from bytes 2-3 |
| PubrelCodec.WrongFlagsRejected | Sources/SwiftMQTT/MQTTPacket/Packets/Pubrel.swift:40-44 | flags other than 2 are reported as invalid flags, expecting 2 |
| PubrelCodec.LengthByteIgnored | Sources/SwiftMQTT/MQTTPacket/Packets/Pubrel.swift:50 | byte 1 has no effect on the result |
| PubrelCodec.EncodeLayout | Sources/SwiftMQTT/MQTTPacket/Packets/Pubrel.swift:23-26 | `Pubrel(id)` encodes as `[0x62, 0x02, hi, lo]` |
| PubrelCodec.RoundTrip | Sources/SwiftMQTT/MQTTPacket/Packets/Pubrel.swift:28-63 | every `Pubrel(id)` decodes back from its encoding |
| PubrelCodec.Vector | Tests/SwiftMQTTTests/MQTTControlPacketTests.swift:135-145 | `[0x62,0x02,0x00,0x01]` is `Pubrel(1)`, both ways |
| PubcompCodec.Decode | Sources/SwiftMQTT/MQTTPacket/Packets/Pubcomp.swift:28-55 | decodes exactly when byte 0 is 0x70; identifier from bytes 2-3, length byte copied unchecked |
| PubcompCodec.EncodeLayout | Sources/SwiftMQTT/MQTTPacket/Packets/Pubcomp.swift:23-26 | `Pubcomp(id)` encodes as `[0x70, 0x02, hi, lo]` |
| PubcompCodec.RoundTrip | Sources/SwiftMQTT/MQTTPacket/Packets/Pubcomp.swift:28-65 | a PUBCOMP with a one-byte length decodes back from its encoding |
| PubcompCodec.Vector | Tests/SwiftMQTTTests/MQTTControlPacketTests.swift:154-164 | `[0x70,0x02,0x00,0x01]` is `Pubcomp(1)`, both ways |
| SubscribeCodec.FilterBytes | Sources/SwiftMQTT/MQTTPacket/Packets/Subscribe.swift:33-43 | one filter takes its topic plus three bytes |
| SubscribeCodec.EncodePayload | Sources/SwiftMQTT/MQTTPacket/Packets/Subscribe.swift:33-43 | the loop writes each filter in list order: prefixed topic, then its QoS byte |
| SubscribeCodec.PayloadSize | Sources/SwiftMQTT/MQTTPacket/Packets/Subscribe.swift:59 | the payload is the sum over filters of 2 + topic + 1 bytes |
| SubscribeCodec.PayloadRoundTrip | Sources/SwiftMQTT/MQTTPacket/Packets/Subscribe.swift:33-43 | the filters, in order and with their QoS, read back from the payload |
| SubscribeCodec.Make | Sources/SwiftMQTT/MQTTPacket/Packets/Subscribe.swift:56-60 | the remaining length is two plus the payload size; the identifier defaults to 1 and the flags are 2 |
| SubscribeCodec.RoundTrip | Sources/SwiftMQTT/MQTTPacket/Packets/Subscribe.swift:56-69 | a SUBSCRIBE parses back from its encoding |
| SubscribeCodec.Vector | Tests/SwiftMQTTTests/MQTTControlPacketTests.swift:179-187 | one filter "test/topic" at QoS 0 encodes to `0x82,0x0f,0x00,0x01,...,0x00` |
| SubackCodec.FromRaw | Sources/SwiftMQTT/MQTTPacket/Packets/Suback.swift:1-5 | only 0x00, 0x01, 0x02 and 0x80 are return codes, and each reads back to its raw value |
| SubackCodec.ReturnCodeRoundTrip | Sources/SwiftMQTT/MQTTPacket/Packets/Suback.swift:1-5 | reading back a code's raw value gives the code |
| SubackCodec.ParseCodes | Sources/SwiftMQTT/MQTTPacket/Packets/Suback.swift:24-33 | the payload parses exactly when every byte is a return code, re-encodes to itself, and otherwise reports an invalid return code |
| SubackCodec.DecodePayload | Sources/SwiftMQTT/MQTTPacket/Packets/Suback.swift:24-33 | the decoding loop, stopping at the first bad byte, computes the payload parse |
| SubackCodec.EncodePayload | Sources/SwiftMQTT/MQTTPacket/Packets/Suback.swift:39-47 | the encoding loop writes one raw byte per code, in order |
| SubackCodec.CodesRoundTrip | Sources/SwiftMQTT/MQTTPacket/Packets/Suback.swift:24-47 | codes read back from their encoding, in order and number |
| SubackCodec.CodeBytesInjective | Sources/SwiftMQTT/MQTTPacket/Packets/Suback.swift:39-47 | distinct code lists have distinct encodings |
| SubackCodec.Make | Sources/SwiftMQTT/MQTTPacket/Packets/Suback.swift:104-110 | the remaining length is two plus the number of codes |
| SubackCodec.DecodeAsWritten | Sources/SwiftMQTT/MQTTPacket/Packets/Suback.swift:78-102 | decodes exactly when byte 0 is 0x90 and the bytes from index 4 are codes, to the identifier of bytes 2-3 |
| SubackCodec.Decode | Sources/SwiftMQTT/MQTTPacket/Packets/Suback.swift:78-102 | the corrected decoder accepts exactly the frames starting 0x90 whose bytes after the length field and the identifier are all return codes, whatever the length field's size |
| SubackCodec.RoundTrip | Sources/SwiftMQTT/MQTTPacket/Packets/Suback.swift:78-121 | every SUBACK decodes back from its encoding |
| SubackCodec.DecodersAgreeOnShortFrames | Sources/SwiftMQTT/MQTTPacket/Packets/Suback.swift:96-98 | with a one-byte length field the two decoders agree |
| SubackCodec.AsWrittenMisreadsLongSuback | Sources/SwiftMQTT/MQTTPacket/Packets/Suback.swift:96-98 | a SUBACK with 126 codes is misread as identifier 256 with a wrong first code |
| SubackCodec.Vector | Tests/SwiftMQTTTests/MQTTControlPacketTests.swift:190-207 | `Suback(1, [QoS0, QoS1, QoS2])` is `[0x90,0x05,0x00,0x01,0x00,0x01,0x02]`, both ways |
| UnsubscribeCodec.EncodePayload | Sources/SwiftMQTT/MQTTPacket/Packets/Unsubscribe.swift:8-20 | the loop writes each topic in order, length-prefixed, with no QoS byte |
| UnsubscribeCodec.PayloadSize | Sources/SwiftMQTT/MQTTPacket/Packets/Unsubscribe.swift:49-55 | the payload is the sum over topics of 2 + topic bytes |
| UnsubscribeCodec.TopicsRoundTrip | Sources/SwiftMQTT/MQTTPacket/Packets/Unsubscribe.swift:8-20 | the topics, in order, read back from the payload |
| UnsubscribeCodec.Make | Sources/SwiftMQTT/MQTTPacket/Packets/Unsubscribe.swift:49-55 | UNSUBSCRIBE, flags 2, remaining length two plus the payload size |
| UnsubscribeCodec.RoundTrip | Sources/SwiftMQTT/MQTTPacket/Packets/Unsubscribe.swift:49-64 | an UNSUBSCRIBE parses back from its encoding |
| UnsubackCodec.Decode | Sources/SwiftMQTT/MQTTPacket/Packets/Unsuback.swift:26-48 | decodes exactly when byte 0 is 0xB0; identifier from bytes 2-3, length byte copied unchecked |
| UnsubackCodec.EncodeLayout | Sources/SwiftMQTT/MQTTPacket/Packets/Unsuback.swift:21-24 | `Unsuback(id)` encodes as `[0xB0, 0x02, hi, lo]` |
| UnsubackCodec.RoundTrip | Sources/SwiftMQTT/MQTTPacket/Packets/Unsuback.swift:26-56 | an UNSUBACK with a one-byte length decodes back from its encoding |
| UnsubackCodec.Vector | Sources/SwiftMQTT/MQTTPacket/Packets/Unsuback.swift:21-56 | `[0xB0,0x02,0x00,0x01]` is `Unsuback(1)`, both ways |
| PingreqCodec.EncodeLayout | Sources/SwiftMQTT/MQTTPacket/Packets/Pingreq.swift:4-10 | PINGREQ is the bare header `[0xC0, 0x00]` |
| PingrespCodec.Decode | Sources/SwiftMQTT/MQTTPacket/Packets/Pingresp.swift:4-10 | any valid type nibble decodes, carrying that type with flags and length 0; nibbles 0 and 15 are an invalid type |
| PingrespCodec.EncodeLayout | Sources/SwiftMQTT/MQTTPacket/Packets/Pingresp.swift:12-18 | PINGRESP is `[0xD0, 0x00]` |
| PingrespCodec.RoundTrip | Sources/SwiftMQTT/MQTTPacket/Packets/Pingresp.swift:4-18 | PINGRESP decodes back from its encoding, whatever follows |
| PingrespCodec.AcceptsOtherTypes | Sources/SwiftMQTT/MQTTPacket/Packets/Pingresp.swift:5-9 | a PUBACK frame decodes as a PINGRESP of type PUBACK |
| DisconnectCodec.EncodeLayout | Sources/SwiftMQTT/MQTTPacket/Packets/Disconnect.swift:4-10 | DISCONNECT is `[0xE0, 0x00]` |
| Framing.ParseStep | Sources/SwiftMQTT/MQTT/MQTTClient/PacketParser.swift:11-33 | one step never grows the buffer, consumes bytes whenever it yields a packet, and waits below two bytes |
| Framing.FrameStep | Sources/SwiftMQTT/MQTT/MQTTClient/PacketParser.swift:21-32 | a complete well-formed frame is consumed exactly and yields its packet |
| Framing.BadFrameStopsDrain | Sources/SwiftMQTT/MQTT/MQTTClient/PacketParser.swift:35-46 | an unrecognised or malformed complete frame is dropped and ends extraction, leaving what follows buffered |
| Framing.PartialFrameWaits | Sources/SwiftMQTT/MQTT/MQTTClient/PacketParser.swift:21-24 | any proper prefix of a frame yields nothing and consumes nothing |
| Framing.DrainPastFrame | Sources/SwiftMQTT/MQTT/MQTTClient/PacketParser.swift:35-46 | a good frame's packet comes first, then those of the rest |
| Framing.DrainFrames | Sources/SwiftMQTT/MQTT/MQTTClient/PacketParser.swift:35-46 | good frames yield their packets in wire order, then the tail's |
| Framing.ChunkingInvariant | Sources/SwiftMQTT/MQTT/MQTTClient/PacketParser.swift:35-46 | feeding a stream of good frames in two chunks at any cut yields the same packets as feeding it whole, with nothing left over |
| Framing.WholeStream | Sources/SwiftMQTT/MQTT/MQTTClient/PacketParser.swift:35-46 | a stream of good frames yields all their packets and leaves nothing buffered |
| PacketParsing.DecodePacketAsWritten | Sources/SwiftMQTT/MQTT/MQTTClient/PacketParser.swift:48-85 | nothing for undispatched first bytes, and each dispatched packet comes from its first byte's decoder |
| PacketParsing.DecodePacket | Sources/SwiftMQTT/MQTT/MQTTClient/PacketParser.swift:48-85 | the same dispatch, with frames too short for their decoder reported as malformed |
| PacketParsing.DecodePacketAgrees | Sources/SwiftMQTT/MQTT/MQTTClient/PacketParser.swift:48-85 | where the dispatch as written reads only present bytes, and SUBACK frames have one length byte, both dispatchers agree |
| PacketParsing.ShortFrameOverreads | Sources/SwiftMQTT/MQTT/MQTTClient/PacketParser.swift:23-28 | `0x40 0x00` is a complete frame the PUBACK decoder would read past |
| PacketParsing.TwoByteGuardOverreads | Sources/SwiftMQTT/MQTT/MQTTClient/PacketParser.swift:12-24 | `0x30 0x80` passes the two-byte check though the length loop would read a third byte; the parser waits instead |
| PacketParsing.ConnackFrame | Sources/SwiftMQTT/MQTT/MQTTClient/PacketParser.swift:48-85 | every encoded CONNACK is a frame the parser turns back into it |
| PacketParsing.PubackFrame | Sources/SwiftMQTT/MQTT/MQTTClient/PacketParser.swift:48-85 | every encoded `Puback(id)` is a frame the parser turns back into it |
| PacketParsing.SubackFrame | Sources/SwiftMQTT/MQTT/MQTTClient/PacketParser.swift:48-85 | every encoded SUBACK is a frame the parser turns back into it |
| PacketParsing.PacketParser.ParsePacket | Sources/SwiftMQTT/MQTT/MQTTClient/PacketParser.swift:11-33 | the packet and new buffer are one framing step on the old buffer |
| PacketParsing.PacketParser.Feed | Sources/SwiftMQTT/MQTT/MQTTClient/PacketParser.swift:35-46 | the packets and new buffer are the extraction from the old buffer plus the chunk |
| PacketIds.Successor | Sources/SwiftMQTT/MQTT/MQTTClient/PacketIdAllocator.swift:10-13 | the cursor steps by one and wraps 65535 to 1, never to 0 |
| PacketIds.SuccessorCloser | Sources/SwiftMQTT/MQTT/MQTTClient/PacketIdAllocator.swift:15-26 | each step brings the cursor one closer to any other identifier, so the search ends |
| PacketIds.SomeIdFree | Sources/SwiftMQTT/MQTT/MQTTClient/PacketIdAllocator.swift:16-18 | with fewer than 65535 identifiers allocated some non-zero identifier is free |
| PacketIds.FullTableNeverFree | Sources/SwiftMQTT/MQTT/MQTTClient/PacketIdAllocator.swift:15-18 | with all 65535 identifiers allocated, the cursor after any number of increments is still allocated, so the loop of `next()` never ends |
| PacketIds.FullTable | Sources/SwiftMQTT/MQTT/MQTTClient/PacketIdAllocator.swift:15-18 | 65535 allocated identifiers, none of them 0, include every identifier the cursor can point at |
| PacketIds.PacketIdAllocator.constructor | Sources/SwiftMQTT/MQTT/MQTTClient/PacketIdAllocator.swift:5-8 | cursor 1, nothing allocated |
| PacketIds.PacketIdAllocator.Increment | Sources/SwiftMQTT/MQTT/MQTTClient/PacketIdAllocator.swift:10-13 | the cursor moves to its successor |
| PacketIds.PacketIdAllocator.Next | Sources/SwiftMQTT/MQTT/MQTTClient/PacketIdAllocator.swift:15-26 | a non-zero identifier not allocated before, the first free one from the cursor; it is added to the set and the cursor moves past it |
| PacketIds.PacketIdAllocator.Release | Sources/SwiftMQTT/MQTT/MQTTClient/PacketIdAllocator.swift:28-30 | the identifier leaves the set; releasing a free one changes nothing |
| PacketIds.FreshAllocatorCountsUp | Sources/SwiftMQTT/MQTT/MQTTClient/PacketIdAllocator.swift:5-26 | a fresh allocator hands out 1, then 2 |
| PacketIds.TwoInARow | Sources/SwiftMQTT/MQTT/MQTTClient/PacketIdAllocator.swift:15-26 | two calls without a release give distinct identifiers |
| Inflight.TimeoutTask.constructor | Sources/SwiftMQTT/MQTT/MQTTClient/Inflight.swift:34-44 | no timer, no waiter, no cached result |
| Inflight.TimeoutTask.Start | Sources/SwiftMQTT/MQTT/MQTTClient/Inflight.swift:46-59 | the timer runs afterwards; waiter and cache are untouched, so a second start changes nothing |
| Inflight.TimeoutTask.Finish | Sources/SwiftMQTT/MQTT/MQTTClient/Inflight.swift:61-78 | a waiter is resumed with the result and cleared, else the result is cached; the timer is cancelled |
| Inflight.TimeoutTask.Stop | Sources/SwiftMQTT/MQTT/MQTTClient/Inflight.swift:80-82 | finishing with success |
| Inflight.TimeoutTask.Expire | Sources/SwiftMQTT/MQTT/MQTTClient/Inflight.swift:51-55 | a running timer finishes with a timeout of its kind; a cancelled one delivers nothing |
| Inflight.TimeoutTask.Wait | Sources/SwiftMQTT/MQTT/MQTTClient/Inflight.swift:84-92 | a cached result resumes the caller at once and stays cached; otherwise the caller becomes the waiter |
| Inflight.StopThenWait | Sources/SwiftMQTT/MQTT/MQTTClient/Inflight.swift:61-92 | after a stop, every later wait resumes with success |
| Inflight.WaitThenExpire | Sources/SwiftMQTT/MQTT/MQTTClient/Inflight.swift:51-92 | a waiter is resumed with the timeout failure, which is not cached |
| Session.MQTTSession.constructor | Sources/SwiftMQTT/MQTT/MQTTClient/MQTTSession.swift:20-43 | no subscriptions, timers, exchanges or bus output |
| Session.MQTTSession.HandleSendPublish | Sources/SwiftMQTT/MQTT/MQTTClient/MQTTSession.swift:124-149 | QoS 1 or 2 with an identifier replaces that identifier's entry with a fresh `publishSent` entry and running timer; no identifier gives the QoS's own "Attempt to send … without packetId" warning; QoS 0 changes nothing | |
| Session.MQTTSession.HandleSendPubrel | Sources/SwiftMQTT/MQTT/MQTTClient/MQTTSession.swift:151-157 | the identifier's entry becomes a fresh `pubRelSent` entry |
| Session.MQTTSession.ForgetPassive | Sources/SwiftMQTT/MQTT/MQTTClient/MQTTSession.swift:159-183 | sending PUBACK or PUBCOMP removes a known identifier from `passiveTasks`; an unknown one only adds the given warning; nothing else changes | |
| Session.MQTTSession.HandleSendPubrec | Sources/SwiftMQTT/MQTT/MQTTClient/MQTTSession.swift:168-175 | sending PUBREC never changes `passiveTasks`, and warns for an unknown identifier |
| Session.MQTTSession.HandleSendSubscribe | Sources/SwiftMQTT/MQTT/MQTTClient/MQTTSession.swift:185-194 | the filters are appended in order, duplicates kept, and the identifier gets a fresh `SubscribeSent` entry |
| Session.MQTTSession.HandleSendConnect | Sources/SwiftMQTT/MQTT/MQTTClient/MQTTSession.swift:196-200 | a fresh running connect timer with the configured timeout replaces the old one |
| Session.MQTTSession.HandleSendPingreq | Sources/SwiftMQTT/MQTT/MQTTClient/MQTTSession.swift:202-206 | a fresh running ping timer with the configured timeout replaces the old one |
| Session.MQTTSession.HandleSend | Sources/SwiftMQTT/MQTT/MQTTClient/MQTTSession.swift:88-118 | the whole new state, case by case (`SendEffect`): each packet whose header names its own type has exactly its handler's effect, warnings included; a QoS 0 publish, PINGREQ and mismatched headers change nothing; sending never issues commands or touches the ping timer | |
| Session.MQTTSession.HandleConnack | Sources/SwiftMQTT/MQTT/MQTTClient/MQTTSession.swift:211-226 | an accepted CONNACK stops the connect timer with success and clears it; any other code only adds the rejection warning | |
| Session.MQTTSession.RemoveActive | Sources/SwiftMQTT/MQTT/MQTTClient/MQTTSession.swift:228-236 | a known identifier's entry is removed whatever its state and its timer finishes with success; an unknown one only warns |
| Session.MQTTSession.HandlePublish | Sources/SwiftMQTT/MQTT/MQTTClient/MQTTSession.swift:238-262 | QoS 1 or 2 with an identifier issues exactly one PUBACK or PUBREC and records the exchange; no identifier gives the QoS's own "Received … without packetId" warning; QoS 0 does nothing | |
| Session.MQTTSession.HandlePubrel | Sources/SwiftMQTT/MQTT/MQTTClient/MQTTSession.swift:286-294 | a known exchange is answered with PUBCOMP and stays recorded; an unknown one only warns |
| Session.MQTTSession.HandlePacket | Sources/SwiftMQTT/MQTT/MQTTClient/MQTTSession.swift:66-86 | the whole new state, case by case (`ReceiveEffect`): SUBACK, PUBACK, PUBREC and PUBCOMP end their exchange with its timer finished with success, or warn for an unknown identifier; PUBLISH and PUBREL answer or warn; an accepted CONNACK finishes and clears the connect timer and a rejected one warns; every other packet changes nothing | |
| Session.MQTTSession.Handle | Sources/SwiftMQTT/MQTT/MQTTClient/MQTTSession.swift:49-64 | a sent packet has exactly `handleSend`'s effect; a received packet is appended to the events and then has exactly `handlePacket`'s effect, timers included; connection errors, inactivity and activity only add their event | |
| Session.MQTTSession.AwaitActive | Sources/SwiftMQTT/MQTT/MQTTClient/MQTTSession.swift:338-397 | the caller waits only when the entry exists in the expected state; otherwise nothing happens |
| Session.MQTTSession.AwaitConnack | Sources/SwiftMQTT/MQTT/MQTTClient/MQTTSession.swift:329-336 | the caller waits on the connect timer when there is one |
| Session.MQTTSession.AwaitPingresp | Sources/SwiftMQTT/MQTT/MQTTClient/MQTTSession.swift:320-327 | the caller waits on the ping timer when there is one |
| SessionScenarios.ClientExactlyOnce | Sources/SwiftMQTT/MQTT/MQTTClient/MQTTSession.swift:124-157 | after PUBLISH, PUBREC, PUBREL and PUBCOMP nothing is in flight for the identifier; the first timer completed with nobody waiting and the PUBREL's waiter was resumed with success |
| SessionScenarios.ServerExactlyOnce | Sources/SwiftMQTT/MQTT/MQTTClient/MQTTSession.swift:238-294 | a received QoS 2 publish is answered with PUBREC, then PUBCOMP, and forgotten once PUBCOMP is sent |
| SessionScenarios.SendQoS0Publish | Sources/SwiftMQTT/MQTT/MQTTClient/MQTTSession.swift:49-52 | sending a QoS 0 publish through `handle` changes nothing at all |
| SessionScenarios.ArrivalReported | Sources/SwiftMQTT/MQTT/MQTTClient/MQTTSession.swift:53-55 | whatever arrives, the event history is kept, the packet is reported next, and at most one warning follows |
| Buffering.LastAppend | Sources/SwiftMQTT/MQTT/MQTTClient/PacketBuffer.swift:19-36 | keeping the newest n after each push is keeping the newest n of the whole history |
| Buffering.PacketBuffer.constructor | Sources/SwiftMQTT/MQTT/MQTTClient/PacketBuffer.swift:12-17 | a ring of the given size, at least 1, empty and with nobody waiting |
| Buffering.PacketBuffer.Push | Sources/SwiftMQTT/MQTT/MQTTClient/PacketBuffer.swift:19-36 | with a consumer waiting, the oldest one receives the packet and the ring is unchanged; otherwise the contents become the newest `size` of the old contents plus the packet |
| Buffering.PacketBuffer.Append | Sources/SwiftMQTT/MQTT/MQTTClient/PacketBuffer.swift:28-32 | a ring with room gains the packet at the back |
| Buffering.PacketBuffer.Overwrite | Sources/SwiftMQTT/MQTT/MQTTClient/PacketBuffer.swift:28-35 | a full ring loses its oldest packet and gains the new one at the back |
| Buffering.PacketBuffer.Next | Sources/SwiftMQTT/MQTT/MQTTClient/PacketBuffer.swift:38-52 | the oldest packet is returned and removed; on an empty ring the caller joins the back of the waiting line |
| BufferScenarios.KeepsNewest | Sources/SwiftMQTT/MQTT/MQTTClient/PacketBuffer.swift:19-52 | a ring of two, after three pushes, yields the second and third packets in order, then nothing |
| BufferScenarios.WaiterServedFirst | Sources/SwiftMQTT/MQTT/MQTTClient/PacketBuffer.swift:19-52 | a consumer waiting on an empty buffer receives the next push, which is not queued as well |

## Left out

- Socket and event-loop I/O, the NIO `ByteBuffer` and its reader index: bytes are a `seq<byte>`, and consuming bytes drops a prefix.
- Concurrency: actors, tasks and continuations. A continuation is a `Waiter` name. Resuming one is recorded in a `resumed` or `delivered` log.
- Timer mechanics (`Task.sleep`): a timer's expiry is the external event `TimeoutTask.Expire`.
- Keep-alive (`awaitKeepAlive`, `startKeepAlive`, `resetKeepAlive`, PingPong): these rely on wall-clock time and sleeping tasks.
- `getSubscriptions` is a plain read of the `subscriptions` field.
- UTF-8 decoding of messages, `toString`, and hex formatting: topics, client ids and messages are byte sequences. A received topic is checked for well-formed UTF-8, as `String(bytes:encoding: .utf8)` does; it is not converted to a String. `String.count` is taken as a byte count, which holds for ASCII strings.
- ConnectCodec.Make: the length prefixes use the byte count, not Swift's character count. The two differ only for non-ASCII strings.
- Session.MQTTSession.HandleSendPublish, HandleSendPubrel and HandleSendSubscribe: the session builds `TimeoutTask(timeout: 10)` without a kind, which does not match the initialiser. The model supplies `PublishTimeout(id, qos)` or `SubscribeTimeout(id)`.
- Session.MQTTSession.HandleSendConnect: the session builds `TimeoutTask(timeout: self.config.connTimeout)` without a kind, but the only initialiser is `init(timeout: UInt16, kind: TimeoutKind)` (Sources/SwiftMQTT/MQTT/MQTTClient/Inflight.swift:41). The model supplies `ConnectTimeout`, the counterpart of `TimeoutKind.connect` (Sources/SwiftMQTTAsync/MQTTClient/MQTTError.swift:32-38), so its `kind == ConnectTimeout` is the model's choice, not the source's.
- Session.MQTTSession.HandleSendPingreq: likewise `TimeoutTask(timeout: self.config.pingTimeout)` has no kind. The model supplies `PingTimeout`, the counterpart of `TimeoutKind.ping`, so its `kind == PingTimeout` is the model's choice, not the source's.
- PacketIds.PacketIdAllocator.Next: requires fewer than 65535 identifiers in use. On a full table the loop of `next()` never ends (see "## Findings" and `PacketIds.FullTableNeverFree`); the model keeps the guarded, terminating form.
- Session.MQTTSession.HandleConnack: the warning text does not include the return code's description.
- The event and command types used by the session are modelled from their uses. The application event bus becomes the `events` sequence, and the command bus becomes `commands`.
- The two error enums in the tree are merged into one `MQTTError`. Only the cases the core raises are kept.
- The superseded packet tree under `Sources/SwiftMQTT/MQTT/MQTTPacket/Packets/` and `MQTTPacketParser.swift` are not part of this model.
- `MQTTClient.swift` is not part of this model: it is actor orchestration over the connection. Its private copy of the allocator is the same code as `PacketIdAllocator.swift`.
- The allocator's `allocated` set is named `allocatedIds`, because `allocated` is a reserved word in Dafny.
- Framing lemmas are stated for any frame decoder, not only the packet dispatcher. The dispatcher `PacketParsing.DecodeFrame` is the one the parser object uses.
- Swift traps become preconditions. These cover fixed-index reads on too-short input in the packet decoders, a topic longer than 65535 bytes, and a buffer size below 1. The framer's overreads are not preconditions; they are corrected under Findings.
- PubackCodec.RoundTrip, PubrecCodec.RoundTrip, PubcompCodec.RoundTrip and UnsubackCodec.RoundTrip: these assume a length below 128. The decoders read the identifier at the fixed bytes 2-3.

## Findings

| source | as written | input that shows it | evidently intended | confidence | as-written member | corrected member |
|---|---|---|---|---|---|---|
| Sources/SwiftMQTT/MQTT/MQTTClient/PacketParser.swift:12-24 | `parsePacket` checks only for two buffered bytes. It then calls `decodeRemainigLength`, whose bounds guard is commented out. | buffer `[0x30, 0x80]`: the loop reads index 2, which is out of range, and traps | wait for more bytes while the length field is incomplete | high (not executed) | RemainingLengthDecoding.DecodeRemainingLengthAsWritten, PacketParsing.TwoByteGuardOverreads | RemainingLengthDecoding.DecodeRemainingLength |
| Sources/SwiftMQTT/MQTT/MQTTClient/PacketParser.swift:23-28 | A complete frame goes to a decoder that reads fixed indices 0..3. | frame `[0x40, 0x00]`: `Puback(bytes:)` reads index 2 of a two-byte frame | reject a frame too short for its packet as malformed | high (not executed) | PacketParsing.DecodePacketAsWritten, PacketParsing.ShortFrameOverreads | PacketParsing.DecodePacket |
| Sources/SwiftMQTT/MQTTPacket/Packets/Suback.swift:96-98 | The identifier is read from bytes 2-3 and the codes from byte 4, which assumes a one-byte length field. | `Suback(1, 126 × QoS0)` has remaining length 128 and length field `[0x80, 0x01]`; it decodes as identifier 256 with 127 codes, the first of them QoS1 | read the identifier and codes after the length field | high (not executed) | SubackCodec.DecodeAsWritten, SubackCodec.AsWrittenMisreadsLongSuback | SubackCodec.Decode, SubackCodec.RoundTrip |
| Sources/SwiftMQTT/MQTT/MQTTClient/PacketIdAllocator.swift:15-18 | `next()` increments the cursor while it points at an allocated identifier, with no bound on the number of steps. | every identifier 1..65535 allocated: every cursor reached is allocated, so the loop never ends | report that no identifier is free (or make the caller wait for a release) | high (not executed) | PacketIds.FullTableNeverFree | PacketIds.PacketIdAllocator.Next |
