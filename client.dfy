/** Nodes/ClientNode.cs: the client sends images to the master, remembering each under
    its packet id, and matches the responses that come back against those ids.
    `ImageInfo` is an object: the client records the processed bytes in the very object
    it was given, so the same object may be reachable under several ids. */
module Client {
  import opened Messages

  /** The address a client puts in its requests. */
  const LoopbackIp := "127.0.0.1"

  /** One image to send (lines 173-181). Only `processedData` is ever updated by the
      client; the other properties are fixed when the image is loaded. */
  class ImageInfo {
    const fileName: string
    const originalData: seq<Byte>
    const width: int
    const height: int
    const format: string
    var processedData: Option<seq<Byte>>

    constructor (fileName: string, originalData: seq<Byte>, width: int, height: int, format: string)
      ensures this.fileName == fileName && this.originalData == originalData
      ensures this.width == width && this.height == height && this.format == format
      ensures processedData == None
    {
      this.fileName := fileName;
      this.originalData := originalData;
      this.width := width;
      this.height := height;
      this.format := format;
      processedData := None;
    }
  }

  /** The request packet for an image under the fresh id `packetId` (lines 79-86). */
  function RequestPacket(info: ImageInfo, packetId: string): (p: ImagePacket)
    ensures p.imageData == info.originalData && p.fileName == info.fileName
    ensures p.width == info.width && p.height == info.height && p.format == info.format
    ensures p.packetId == packetId && p.slavePort == 0
  {
    ImagePacket(info.originalData, info.fileName, info.width, info.height, info.format, packetId, 0)
  }

  /** The request message of a client listening on `port` (lines 91-97). */
  function RequestMessage(info: ImageInfo, packetId: string, port: int): (m: NetworkMessage)
    ensures m.msgType == ImageRequest && m.data == PacketJson(RequestPacket(info, packetId))
    ensures m.senderIp == LoopbackIp && m.senderPort == port
  {
    NetworkMessage(ImageRequest, PacketJson(RequestPacket(info, packetId)), LoopbackIp, port)
  }

  /** `_pendingImages` and `ProcessedImages`. */
  datatype ClientState = ClientState(pending: map<string, ImageInfo>, processed: seq<ImageInfo>)

  /** The packet of a message the client acts on: an `ImageResponse` whose data decodes
      as a packet. */
  function ResponseOf(msg: NetworkMessage): (r: Option<ImagePacket>)
    ensures r.Some? <==> msg.msgType == ImageResponse && msg.data.PacketJson?
    ensures r.Some? ==> r.value == msg.data.packet
  {
    if msg.msgType == ImageResponse then
      match msg.data
      case PacketJson(p) => Some(p)
      case _ => None
    else None
  }

  /** `SendImageAsync`'s bookkeeping: the image is pending under its id, replacing any
      image already there. */
  function Submit(s: ClientState, info: ImageInfo, packetId: string): ClientState
  {
    s.(pending := s.pending[packetId := info])
  }

  /** `OnMessageReceived` on the client's collections: a response for a pending id moves
      that image from the pending map to the end of the processed list; anything else
      changes nothing. */
  function Receive(s: ClientState, msg: NetworkMessage): ClientState
  {
    match ResponseOf(msg)
    case Some(p) =>
      if p.packetId in s.pending then
        ClientState(s.pending - {p.packetId}, s.processed + [s.pending[p.packetId]])
      else s
    case None => s
  }

  /** A sequence of inbound messages, oldest first. */
  function ReceiveAll(s: ClientState, msgs: seq<NetworkMessage>): ClientState
    decreases |msgs|
  {
    if |msgs| == 0 then s else ReceiveAll(Receive(s, msgs[0]), msgs[1..])
  }

  /** The ids the messages resolve, in the order they are resolved. */
  function Resolved(s: ClientState, msgs: seq<NetworkMessage>): seq<string>
    decreases |msgs|
  {
    if |msgs| == 0 then []
    else
      var rest := Resolved(Receive(s, msgs[0]), msgs[1..]);
      match ResponseOf(msgs[0])
      case Some(p) => if p.packetId in s.pending then [p.packetId] + rest else rest
      case None => rest
  }

  /** The images sent for a list, under the ids given for them, in list order. */
  function SubmitAll(s: ClientState, images: seq<ImageInfo>, packetIds: seq<string>): ClientState
    requires |images| == |packetIds|
    decreases |images|
  {
    if |images| == 0 then s
    else SubmitAll(Submit(s, images[0], packetIds[0]), images[1..], packetIds[1..])
  }

  /** The requests `SendImagesAsync` hands to the transport, in list order. */
  function Requests(images: seq<ImageInfo>, packetIds: seq<string>, port: int,
                    masterIp: string, masterPort: int): (r: seq<Outgoing>)
    requires |images| == |packetIds|
    ensures |r| == |images|
    ensures forall i :: 0 <= i < |r| ==>
      r[i] == Outgoing(RequestMessage(images[i], packetIds[i], port), masterIp, masterPort)
  {
    if |images| == 0 then []
    else [Outgoing(RequestMessage(images[0], packetIds[0], port), masterIp, masterPort)]
         + Requests(images[1..], packetIds[1..], port, masterIp, masterPort)
  }

  /** One step of `SubmitAll` from position `i`. */
  lemma SubmitAllUnfold(s: ClientState, images: seq<ImageInfo>, packetIds: seq<string>, i: int)
    requires |images| == |packetIds| && 0 <= i < |images|
    ensures SubmitAll(s, images[i..], packetIds[i..])
         == SubmitAll(Submit(s, images[i], packetIds[i]), images[i + 1..], packetIds[i + 1..])
  {
    assert images[i..][1..] == images[i + 1..] && packetIds[i..][1..] == packetIds[i + 1..];
  }

  /** One step of `Requests` from position `i`. */
  lemma RequestsUnfold(images: seq<ImageInfo>, packetIds: seq<string>, port: int,
                       masterIp: string, masterPort: int, i: int)
    requires |images| == |packetIds| && 0 <= i < |images|
    ensures Requests(images[i..], packetIds[i..], port, masterIp, masterPort)
         == [Outgoing(RequestMessage(images[i], packetIds[i], port), masterIp, masterPort)]
            + Requests(images[i + 1..], packetIds[i + 1..], port, masterIp, masterPort)
  {
    assert images[i..][1..] == images[i + 1..] && packetIds[i..][1..] == packetIds[i + 1..];
  }

  /** The ids in a list. */
  function Elements(ids: seq<string>): set<string>
  {
    set k | k in ids
  }

  class ClientNode {
    const port: int
    const masterIp: string
    const masterPort: int
    var pendingImages: map<string, ImageInfo>
    var processedImages: seq<ImageInfo>
    var sent: seq<Outgoing>              // calls of SendMessageAsync, oldest first

    function State(): ClientState
      reads this
    {
      ClientState(pendingImages, processedImages)
    }

    constructor (port: int, masterIp: string, masterPort: int)
      ensures this.port == port && this.masterIp == masterIp && this.masterPort == masterPort
      ensures State() == ClientState(map[], []) && sent == []
    {
      this.port := port;
      this.masterIp := masterIp;
      this.masterPort := masterPort;
      pendingImages := map[];
      processedImages := [];
      sent := [];
    }

    /** Sends one image under the fresh id `packetId`; `delivered` is what the transport
        reports. The image is pending before the send and stays pending when it fails. */
    method SendImage(info: ImageInfo, packetId: string, delivered: bool) returns (ok: bool)
      modifies this
      ensures ok == delivered
      ensures State() == Submit(old(State()), info, packetId)
      ensures sent == old(sent) + [Outgoing(RequestMessage(info, packetId, port), masterIp, masterPort)]
    {
      var packet := RequestPacket(info, packetId);
      var message := NetworkMessage(ImageRequest, PacketJson(packet), LoopbackIp, port);
      pendingImages := pendingImages[packet.packetId := info];
      sent := sent + [Outgoing(message, masterIp, masterPort)];
      if delivered {
        return true;
      } else {
        return false;
      }
    }

    /** Sends the images one after another, in list order. */
    method SendImages(images: seq<ImageInfo>, packetIds: seq<string>, delivered: seq<bool>)
      requires |packetIds| == |images| && |delivered| == |images|
      modifies this
      ensures State() == SubmitAll(old(State()), images, packetIds)
      ensures sent == old(sent) + Requests(images, packetIds, port, masterIp, masterPort)
    {
      var i := 0;
      while i < |images|
        invariant 0 <= i <= |images|
        invariant SubmitAll(State(), images[i..], packetIds[i..])
               == SubmitAll(old(State()), images, packetIds)
        invariant sent + Requests(images[i..], packetIds[i..], port, masterIp, masterPort)
               == old(sent) + Requests(images, packetIds, port, masterIp, masterPort)
      {
        ghost var sentBefore := sent;
        ghost var later := Requests(images[i + 1..], packetIds[i + 1..], port, masterIp, masterPort);
        SubmitAllUnfold(State(), images, packetIds, i);
        RequestsUnfold(images, packetIds, port, masterIp, masterPort, i);
        var ok := SendImage(images[i], packetIds[i], delivered[i]);
        AppendAssociates(sentBefore, [Outgoing(RequestMessage(images[i], packetIds[i], port), masterIp, masterPort)], later);
        i := i + 1;
      }
    }

    /** Matches a response against the pending images: the image found is given the
        packet's bytes, moved to the processed list and forgotten. */
    method OnMessageReceived(msg: NetworkMessage)
      modifies this, pendingImages.Values
      ensures State() == Receive(old(State()), msg)
      ensures sent == old(sent)
      ensures forall info :: info in old(pendingImages.Values) ==>
        info.processedData ==
          match ResponseOf(msg)
          case Some(p) =>
            if p.packetId in old(pendingImages) && info == old(pendingImages[p.packetId])
            then Some(p.imageData) else old(info.processedData)
          case None => old(info.processedData)
    {
      if msg.msgType == ImageResponse {
        match msg.data {
          case PacketJson(packet) =>
            if packet.packetId in pendingImages {
              var originalInfo := pendingImages[packet.packetId];
              originalInfo.processedData := Some(packet.imageData);
              processedImages := processedImages + [originalInfo];
              pendingImages := pendingImages - {packet.packetId};
            }
          case _ =>
        }
      }
    }
  }

  // ---------------------------------------------------------------- properties

  /** A response for a pending id resolves exactly that image: it leaves the pending map,
      which is otherwise unchanged, and is appended to the processed list. */
  lemma ResponseResolvesPending(s: ClientState, msg: NetworkMessage)
    requires msg.msgType == ImageResponse && msg.data.PacketJson?
    requires msg.data.packet.packetId in s.pending
    ensures var r := Receive(s, msg); var id := msg.data.packet.packetId;
      && r.processed == s.processed + [s.pending[id]]
      && id !in r.pending
      && r.pending.Keys == s.pending.Keys - {id}
      && (forall k :: k in r.pending ==> r.pending[k] == s.pending[k])
  {
  }

  /** An unknown id, a message of another type and an undecodable body change nothing. */
  lemma OtherMessagesChangeNothing(s: ClientState, msg: NetworkMessage)
    requires ResponseOf(msg).None? || ResponseOf(msg).value.packetId !in s.pending
    ensures Receive(s, msg) == s
  {
  }

  /** A response that arrives twice is acted on once. */
  lemma DuplicateResponseIgnored(s: ClientState, msg: NetworkMessage)
    requires ResponseOf(msg).Some?
    ensures Receive(Receive(s, msg), msg) == Receive(s, msg)
  {
  }

  /** Every response to a sent image finds it, whatever else was sent before, and
      resolves it to that very image. */
  lemma SubmittedImageIsFound(s: ClientState, info: ImageInfo, packetId: string, msg: NetworkMessage)
    requires msg.msgType == ImageResponse && msg.data.PacketJson? && msg.data.packet.packetId == packetId
    ensures var r := Receive(Submit(s, info, packetId), msg);
      && r.processed == s.processed + [info]
      && packetId !in r.pending
      && r.pending == s.pending - {packetId}
  {
  }

  /** Over any sequence of messages, each resolved id was pending at the start and is
      resolved once: the processed list grows by the images of the resolved ids in
      order, and those ids, and only those, leave the pending map. So one id yields at
      most one processed entry. */
  lemma ReceiveAllResolvesEachIdOnce(s: ClientState, msgs: seq<NetworkMessage>)
    ensures var r := ReceiveAll(s, msgs); var ids := Resolved(s, msgs);
      && (forall i, j :: 0 <= i < j < |ids| ==> ids[i] != ids[j])
      && (forall i :: 0 <= i < |ids| ==> ids[i] in s.pending)
      && |r.processed| == |s.processed| + |ids|
      && r.processed[..|s.processed|] == s.processed
      && (forall i :: 0 <= i < |ids| ==> r.processed[|s.processed| + i] == s.pending[ids[i]])
      && r.pending.Keys == s.pending.Keys - Elements(ids)
      && (forall k :: k in r.pending ==> r.pending[k] == s.pending[k])
  {
    ResolvedIdsLeavePending(s, msgs);
    ReceiveAllAppendsResolved(s, msgs);
  }

  /** The resolved ids are distinct, were pending, and are exactly the ids that leave the
      pending map; the entries that stay keep their images. */
  lemma {:induction false} ResolvedIdsLeavePending(s: ClientState, msgs: seq<NetworkMessage>)
    decreases |msgs|
    ensures var r := ReceiveAll(s, msgs); var ids := Resolved(s, msgs);
      && (forall i, j :: 0 <= i < j < |ids| ==> ids[i] != ids[j])
      && (forall i :: 0 <= i < |ids| ==> ids[i] in s.pending)
      && r.pending.Keys == s.pending.Keys - Elements(ids)
      && (forall k :: k in r.pending ==> r.pending[k] == s.pending[k])
  {
    if |msgs| > 0 {
      var s1 := Receive(s, msgs[0]);
      ResolvedIdsLeavePending(s1, msgs[1..]);
      var rest := Resolved(s1, msgs[1..]);
      var ids := Resolved(s, msgs);
      match ResponseOf(msgs[0])
      case Some(p) =>
        if p.packetId in s.pending {
          var id := p.packetId;
          assert ids == [id] + rest;
          assert s1.pending == s.pending - {id};
          assert Elements(ids) == {id} + Elements(rest);
          forall i | 0 <= i < |rest| ensures rest[i] != id && rest[i] in s.pending {
            assert rest[i] in s1.pending;
          }
          forall i, j | 0 <= i < j < |ids| ensures ids[i] != ids[j] {
            if i > 0 {
              assert ids[i] == rest[i - 1];
            }
            assert ids[j] == rest[j - 1];
          }
        } else {
          assert s1 == s;
        }
      case None =>
        assert s1 == s;
    }
  }

  /** The processed list grows by the images of the resolved ids, in order. */
  lemma {:induction false} ReceiveAllAppendsResolved(s: ClientState, msgs: seq<NetworkMessage>)
    decreases |msgs|
    ensures var r := ReceiveAll(s, msgs); var ids := Resolved(s, msgs);
      && |r.processed| == |s.processed| + |ids|
      && r.processed[..|s.processed|] == s.processed
      && (forall i :: 0 <= i < |ids| ==>
            ids[i] in s.pending && r.processed[|s.processed| + i] == s.pending[ids[i]])
  {
    ResolvedIdsLeavePending(s, msgs);
    if |msgs| > 0 {
      var s1 := Receive(s, msgs[0]);
      ReceiveAllAppendsResolved(s1, msgs[1..]);
      var r := ReceiveAll(s, msgs);
      var rest := Resolved(s1, msgs[1..]);
      var ids := Resolved(s, msgs);
      match ResponseOf(msgs[0])
      case Some(p) =>
        if p.packetId in s.pending {
          var id := p.packetId;
          assert ids == [id] + rest;
          assert s1.processed == s.processed + [s.pending[id]];
          assert r.processed[..|s1.processed|] == s1.processed;
          assert r.processed[..|s.processed|] == s1.processed[..|s.processed|];
          forall i | 0 <= i < |ids|
            ensures r.processed[|s.processed| + i] == s.pending[ids[i]]
          {
            if i > 0 {
              assert ids[i] == rest[i - 1] && rest[i - 1] in s1.pending;
              assert s1.pending[rest[i - 1]] == s.pending[ids[i]];
              assert r.processed[|s.processed| + i] == r.processed[|s1.processed| + (i - 1)];
            }
          }
        } else {
          assert s1 == s;
        }
      case None =>
        assert s1 == s;
    }
  }

  /** Sending a list of images leaves each image pending under the last id given for it,
      the last image given for an id replacing any earlier one. */
  lemma {:induction false} SubmitAllPending(s: ClientState, images: seq<ImageInfo>, packetIds: seq<string>)
    requires |images| == |packetIds|
    decreases |images|
    ensures var r := SubmitAll(s, images, packetIds);
      && r.processed == s.processed
      && r.pending.Keys == s.pending.Keys + Elements(packetIds)
      && (forall i :: 0 <= i < |packetIds| && (forall j :: i < j < |packetIds| ==> packetIds[j] != packetIds[i])
            ==> r.pending[packetIds[i]] == images[i])
      && (forall k :: k in s.pending && k !in packetIds ==> r.pending[k] == s.pending[k])
  {
    if |images| > 0 {
      var s1 := Submit(s, images[0], packetIds[0]);
      SubmitAllPending(s1, images[1..], packetIds[1..]);
      var r := SubmitAll(s, images, packetIds);
      var tail := packetIds[1..];
      assert Elements(packetIds) == {packetIds[0]} + Elements(tail);
      forall i | 0 <= i < |packetIds| && (forall j :: i < j < |packetIds| ==> packetIds[j] != packetIds[i])
        ensures r.pending[packetIds[i]] == images[i]
      {
        if i == 0 {
          assert packetIds[0] !in tail by {
            forall j | 0 <= j < |tail| ensures tail[j] != packetIds[0] {
              assert tail[j] == packetIds[j + 1];
            }
          }
        } else {
          assert tail[i - 1] == packetIds[i] && images[1..][i - 1] == images[i];
          assert forall j :: i - 1 < j < |tail| ==> tail[j] != tail[i - 1] by {
            forall j | i - 1 < j < |tail| ensures tail[j] != tail[i - 1] {
              assert tail[j] == packetIds[j + 1];
            }
          }
        }
      }
      forall k | k in s.pending && k !in packetIds
        ensures r.pending[k] == s.pending[k]
      {
        assert k !in tail;
      }
    }
  }
}
