/** Nodes/SlaveNode.cs: registration with the master and the handling of one image
    request (filter, shrink for transport, reply). The filter is `MedianFilter.ApplyMedianFilter`
    with its default window of 15; the image decoder and the encoders are parameters. */
module Slave {
  import opened Messages
  import opened Compression
  import opened MedianFilter

  /** The address a slave registers under. */
  const LoopbackIp := "127.0.0.1"

  /** The registration a slave listening on `port` sends (lines 44-57). */
  function RegistrationMessage(port: int): (m: NetworkMessage)
    ensures m.msgType == SlaveRegister
    ensures m.data.RegistrationJson? && m.data.registration.ipAddress == LoopbackIp
    ensures m.data.registration.port == port
  {
    NetworkMessage(SlaveRegister, RegistrationJson(SlaveRegistrationData(LoopbackIp, port)), "", 0)
  }

  /** The response packet (lines 238-247): the request's name, size, format and id, the
      processed bytes, and the slave's own port so the master can find it. */
  function ResponsePacket(request: ImagePacket, processed: seq<Byte>, port: int): (p: ImagePacket)
    ensures p.imageData == processed && p.slavePort == port
    ensures p.(imageData := request.imageData, slavePort := request.slavePort) == request
  {
    request.(imageData := processed, slavePort := port)
  }

  /** What a slave on `port` sends back for a request: a decodable packet always yields
      exactly one `ImageResponse`, whatever the size of the processed bytes; anything
      else is the exception path and yields nothing. */
  function Reply(msg: NetworkMessage, port: int, decode: Decoder, encode: Encoder, compress: Compressor)
    : Option<NetworkMessage>
  {
    match msg.data
    case PacketJson(p) =>
      Some(NetworkMessage(ImageResponse,
                          PacketJson(ResponsePacket(p, ForTransport(FilterImage(p.imageData, DefaultFilterSize, decode, encode), compress), port)),
                          "", 0))
    case _ => None
  }

  class SlaveNode {
    const port: int
    const masterIp: string
    const masterPort: int
    var sent: seq<Outgoing>     // calls of SendMessageAsync, oldest first

    constructor (port: int, masterIp: string, masterPort: int)
      ensures this.port == port && this.masterIp == masterIp && this.masterPort == masterPort
      ensures sent == []
    {
      this.port := port;
      this.masterIp := masterIp;
      this.masterPort := masterPort;
      sent := [];
    }

    method RegisterWithMaster()
      modifies this
      ensures sent == old(sent) + [Outgoing(RegistrationMessage(port), masterIp, masterPort)]
    {
      var regData := SlaveRegistrationData(LoopbackIp, port);
      var message := NetworkMessage(SlaveRegister, RegistrationJson(regData), "", 0);
      sent := sent + [Outgoing(message, masterIp, masterPort)];
    }

    /** Filters the image, shrinks it for transport and sends the result to the master. */
    method ProcessImageRequest(msg: NetworkMessage, decode: Decoder, encode: Encoder, compress: Compressor)
      modifies this
      ensures sent == old(sent) + match Reply(msg, port, decode, encode, compress)
                                  case None => []
                                  case Some(m) => [Outgoing(m, masterIp, masterPort)]
    {
      match msg.data {
        case PacketJson(packet) =>
          var filtered := ApplyMedianFilter(packet.imageData, DefaultFilterSize, decode, encode);
          var processedData, attempts := CompressForTransport(filtered, compress);
          var responsePacket := ResponsePacket(packet, processedData, port);
          SendProcessedImage(responsePacket);
        case _ =>
      }
    }

    method SendProcessedImage(packet: ImagePacket)
      modifies this
      ensures sent == old(sent) + [Outgoing(NetworkMessage(ImageResponse, PacketJson(packet), "", 0),
                                            masterIp, masterPort)]
    {
      var message := NetworkMessage(ImageResponse, PacketJson(packet), "", 0);
      sent := sent + [Outgoing(message, masterIp, masterPort)];
    }

    /** Requests are processed; an acknowledgment is only reported; the rest is ignored. */
    method OnMessageReceived(msg: NetworkMessage, decode: Decoder, encode: Encoder, compress: Compressor)
      modifies this
      ensures msg.msgType == ImageRequest ==>
        sent == old(sent) + match Reply(msg, port, decode, encode, compress)
                            case None => []
                            case Some(m) => [Outgoing(m, masterIp, masterPort)]
      ensures msg.msgType != ImageRequest ==> sent == old(sent)
    {
      if msg.msgType == ImageRequest {
        ProcessImageRequest(msg, decode, encode, compress);
      }
    }
  }

  /** A decodable request is always answered, once, with the same packet id, file name,
      dimensions and format, the slave's own port, and the bytes of the transport
      schedule applied to the 15 x 15 median-filtered image, which are within 40,000 bytes
      unless all five fallback passes ran. */
  lemma ReplyAnswersRequest(msg: NetworkMessage, port: int, decode: Decoder, encode: Encoder,
                            compress: Compressor)
    requires msg.data.PacketJson?
    ensures var r := Reply(msg, port, decode, encode, compress); var p := msg.data.packet;
      var filtered := FilterImage(p.imageData, DefaultFilterSize, decode, encode);
      && r.Some? && r.value.msgType == ImageResponse && r.value.data.PacketJson?
      && var q := r.value.data.packet;
      && q.packetId == p.packetId && q.fileName == p.fileName && q.format == p.format
      && q.width == p.width && q.height == p.height && q.slavePort == port
      && q.imageData == ForTransport(filtered, compress)
      && (|q.imageData| <= TransportLimit
          || |TransportQualities(filtered, compress)| == |BracketQualities(filtered, compress)| + MaxAttempts)
  {
    var f := FilterImage(msg.data.packet.imageData, DefaultFilterSize, decode, encode);
    TransportResult(f, compress);
  }
}
