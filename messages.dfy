/** Message shapes shared by the client, master and slave nodes
    (Models/NetworkMessage.cs, Models/ImagePacket.cs, Models/MessageType.cs).

    The JSON text that travels inside `NetworkMessage.Data` is represented by the
    structure it serializes (`Payload`): serialization is taken to be injective and
    deserialization its inverse, so a payload of another shape is a decode failure. */
module Messages {

  /** One byte of a buffer (C# `byte`). */
  type Byte = b: int | 0 <= b < 256

  datatype Option<T> = None | Some(value: T)

  datatype MessageType = ImageRequest | ImageResponse | SlaveRegister | Acknowledgment

  /** Models/ImagePacket.cs: the image and the ids that route it.
      `packetId` is minted by the client; `slavePort` is set only on the response leg. */
  datatype ImagePacket = ImagePacket(
    imageData: seq<Byte>,
    fileName: string,
    width: int,
    height: int,
    format: string,
    packetId: string,
    slavePort: int)

  /** The registration body a slave sends (`SlaveRegistrationData`). */
  datatype SlaveRegistrationData = SlaveRegistrationData(ipAddress: string, port: int)

  /** What the bytes of `NetworkMessage.Data` encode. */
  datatype Payload =
    | PacketJson(packet: ImagePacket)
    | RegistrationJson(registration: SlaveRegistrationData)
    | Text(text: string)
    | Unreadable(bytes: seq<Byte>)

  /** Models/NetworkMessage.cs without the cosmetic `MessageId` and `Timestamp`.
      A message built by a node leaves `senderIp` empty and `senderPort` 0 unless it sets
      them; the transport overwrites both with the remote endpoint on receipt. */
  datatype NetworkMessage = NetworkMessage(
    msgType: MessageType,
    data: Payload,
    senderIp: string,
    senderPort: int)

  /** One call of `UdpService.SendMessageAsync(message, ip, port)`. */
  datatype Outgoing = Outgoing(message: NetworkMessage, ip: string, port: int)

  /** A message as the receiving node sees it: the transport replaces the sender fields
      with the address the datagram came from. */
  function Delivered(m: NetworkMessage, fromIp: string, fromPort: int): NetworkMessage
  {
    m.(senderIp := fromIp, senderPort := fromPort)
  }

  /** Regrouping a concatenation; used where a log or a list grows one element at a time. */
  lemma AppendAssociates<T>(a: seq<T>, b: seq<T>, c: seq<T>)
    ensures (a + b) + c == a + (b + c)
  {
  }
}
