/** The three kinds of node together: what the client, the master and a slave send each
    other for one image and for one registration, chained through the transport, which
    stamps each delivered message with the address it came from. */
module Protocol {
  import opened Messages
  import opened Scheduling
  import opened SchedulerProperties
  import opened Compression
  import Slave
  import MedianFilter
  import Client

  /** One image, start to finish, when some slave is free: the master hands the client's
      packet to a registered slave, the slave's reply comes back, the master forwards it
      to the address the request came from and forgets the id, and the client, which
      had the image pending under that id, moves it to its processed list. The bytes
      the client receives are the slave's transport encoding of its 15 x 15 median-filtered
      image. */
  lemma ImageRoundTrip(s: MasterState, cs: Client.ClientState, info: Client.ImageInfo, id: string,
                       clientIp: string, clientPort: int, masterIp: string, masterPort: int,
                       slaveFromPort: int, slaveId: string,
                       decode: MedianFilter.Decoder, encode: MedianFilter.Encoder,
                       compress: Compressor)
    requires Valid(s) && exists i :: 0 <= i < |s.slaves| && IsFree(s, i)
    ensures
      var request := Delivered(Client.RequestMessage(info, id, clientPort), clientIp, clientPort);
      var s1 := Step(s, request, slaveId);
      && Valid(s1)
      && |s1.outbox| == |s.outbox| + 1
      && var toSlave := s1.outbox[|s.outbox|];
      && Dest(toSlave) in Keys(s.slaves)
      && toSlave.message == NetworkMessage(ImageRequest, PacketJson(Client.RequestPacket(info, id)), "", 0)
      && var reply := Slave.Reply(Delivered(toSlave.message, masterIp, masterPort), toSlave.port,
                                  decode, encode, compress);
      && reply.Some?
      && var s2 := Step(s1, Delivered(reply.value, toSlave.ip, slaveFromPort), slaveId);
      && |s2.outbox| > |s1.outbox|
      && var toClient := s2.outbox[|s1.outbox|];
      && toClient.ip == clientIp && toClient.port == clientPort
      && id !in s2.pending
      && toClient.message.data.PacketJson?
      && toClient.message.data.packet.packetId == id
      && toClient.message.data.packet.imageData == ForTransport(MedianFilter.FilterImage(info.originalData, MedianFilter.DefaultFilterSize, decode, encode),
                               compress)
      && var c := Client.Receive(Client.Submit(cs, info, id), Delivered(toClient.message, masterIp, masterPort));
      && c.processed == cs.processed + [info]
      && c.pending == cs.pending - {id}
  {
    var packet := Client.RequestPacket(info, id);
    var request := Delivered(Client.RequestMessage(info, id, clientPort), clientIp, clientPort);
    assert request.msgType == ImageRequest && request.data == PacketJson(packet);
    StepByType(s, request, slaveId);
    var s1 := Step(s, request, slaveId);
    var task := TaskFor(request, packet);
    RequestAssignsOrQueues(s, request);
    assert s1.queue != s.queue + [task] by {
      var i :| 0 <= i < |s.slaves| && IsFree(s, i);
    }
    var toSlave := s1.outbox[|s.outbox|];
    assert toSlave.message == task.message == NetworkMessage(ImageRequest, PacketJson(packet), "", 0);
    var atSlave := Delivered(toSlave.message, masterIp, masterPort);
    Slave.ReplyAnswersRequest(atSlave, toSlave.port, decode, encode, compress);
    var reply := Slave.Reply(atSlave, toSlave.port, decode, encode, compress);
    var response := Delivered(reply.value, toSlave.ip, slaveFromPort);
    assert response.msgType == ImageResponse && response.data.PacketJson?;
    assert response.data.packet.packetId == id;
    assert Valid(s1);
    StepByType(s1, response, slaveId);
    var s2 := Step(s1, response, slaveId);
    RequestThenResponseReachesClient(s, request, response);
    var toClient := s2.outbox[|s1.outbox|];
    assert toClient.message == NetworkMessage(ImageResponse, response.data, "", 0);
    Client.SubmittedImageIsFound(cs, info, id, Delivered(toClient.message, masterIp, masterPort));
  }

  /** A slave listening on `port` registers as (127.0.0.1, port), whichever address its
      datagram arrives from: the master enrols it unless that pair is already known, and
      acknowledges to that pair as its last send. */
  lemma SlaveRegistration(s: MasterState, port: int, fromIp: string, fromPort: int, slaveId: string)
    requires Valid(s)
    ensures var r := Step(s, Delivered(Slave.RegistrationMessage(port), fromIp, fromPort), slaveId);
      && r == Step(s, Slave.RegistrationMessage(port), slaveId)
      && Valid(r)
      && Registered(r, Slave.LoopbackIp, port)
      && SlaveKey(Slave.LoopbackIp, port) in r.busy
      && |r.outbox| > |s.outbox|
      && r.outbox[|r.outbox| - 1] == Outgoing(Ack(), Slave.LoopbackIp, port)
      && (Registered(s, Slave.LoopbackIp, port) ==> r.slaves == s.slaves)
      && (!Registered(s, Slave.LoopbackIp, port) ==>
            r.slaves == s.slaves + [SlaveInfo(slaveId, Slave.LoopbackIp, port)])
  {
    var msg := Delivered(Slave.RegistrationMessage(port), fromIp, fromPort);
    StepByType(s, msg, slaveId);
    StepByType(s, Slave.RegistrationMessage(port), slaveId);
    var r := Step(s, msg, slaveId);
    RegisterAlwaysAcknowledges(s, msg, slaveId);
    StepPreservesValid(s, msg, slaveId);
    if Registered(s, Slave.LoopbackIp, port) {
      RegisterKnownSlaveChangesNothing(s, msg, slaveId);
      var i :| 0 <= i < |s.slaves| && s.slaves[i].ipAddress == Slave.LoopbackIp && s.slaves[i].port == port;
      KeyOfRegistered(s.slaves, i);
    } else {
      RegisterNewSlave(s, msg, slaveId);
      var i := |r.slaves| - 1;
      assert r.slaves[i] == SlaveInfo(slaveId, Slave.LoopbackIp, port);
      KeyOfRegistered(r.slaves, i);
    }
  }
}
