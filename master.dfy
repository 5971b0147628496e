/** Nodes/MasterNode.cs: the master as an object whose handlers update its fields in place.
    Each handler is proved to perform exactly the transition of the same name in module
    Scheduling, where the properties of those transitions are stated and proved. */
module Master {
  import opened Messages
  import opened Scheduling
  import SchedulerProperties

  class MasterNode {
    var registeredSlaves: seq<SlaveInfo>
    var slaveBusyStatus: map<SlaveKey, bool>
    var slaveTaskCount: map<SlaveKey, int>
    var taskQueue: seq<PendingTask>            // front first
    var pendingRequests: map<string, ClientRequestInfo>
    var roundRobinIndex: int
    var totalTasksReceived: int
    var totalTasksCompleted: int
    var sent: seq<Outgoing>                    // calls of SendMessageAsync, oldest first

    /** The fields as one value. */
    function State(): MasterState
      reads this
    {
      MasterState(registeredSlaves, slaveBusyStatus, slaveTaskCount, taskQueue,
                  pendingRequests, roundRobinIndex, totalTasksReceived, totalTasksCompleted, sent)
    }

    ghost predicate Valid()
      reads this
    {
      Scheduling.Valid(State())
    }

    constructor ()
      ensures State() == EmptyMaster && Valid()
    {
      registeredSlaves := [];
      slaveBusyStatus := map[];
      slaveTaskCount := map[];
      taskQueue := [];
      pendingRequests := map[];
      roundRobinIndex := 0;
      totalTasksReceived := 0;
      totalTasksCompleted := 0;
      sent := [];
    }

    /** Round-robin choice of a free slave: the first free one scanning cyclically from
        `roundRobinIndex`, which then moves one past it. */
    method FindFreeSlave() returns (slave: Option<SlaveInfo>)
      requires Valid()
      modifies this`roundRobinIndex
      ensures Valid() && State() == AfterFind(old(State()))
      ensures slave == match Selection(old(State()))
                       case None => None
                       case Some(i) => Some(registeredSlaves[i])
    {
      ghost var s0 := State();
      var n := |registeredSlaves|;
      if n == 0 {
        return None;
      }
      var freeSlaves: seq<SlaveInfo> := [];
      var j := 0;
      while j < n
        invariant 0 <= j <= n
        invariant State() == s0
        invariant |freeSlaves| == 0 <==> forall i :: 0 <= i < j ==> !IsFree(s0, i)
      {
        var key := KeyOf(registeredSlaves[j]);
        if key in slaveBusyStatus && !slaveBusyStatus[key] {
          assert IsFree(s0, j);
          freeSlaves := freeSlaves + [registeredSlaves[j]];
        }
        j := j + 1;
      }
      if |freeSlaves| == 0 {
        return None;
      }
      slave := None;
      var i := 0;
      while i < n
        invariant 0 <= i <= n
        invariant State() == s0
        invariant forall e :: 0 <= e < i ==> !IsFree(s0, Slot(s0, e))
      {
        var index := (roundRobinIndex + i) % n;
        var key := KeyOf(registeredSlaves[index]);
        if key in slaveBusyStatus && !slaveBusyStatus[key] {
          FirstFreeIs(s0, 0, i);
          slave := Some(registeredSlaves[index]);
          roundRobinIndex := (index + 1) % n;
          break;
        }
        i := i + 1;
      }
    }

    /** Marks the slave busy, counts the task and sends it to the slave. */
    method AssignTaskToSlave(task: PendingTask, slave: SlaveInfo)
      modifies this
      ensures State() == Assign(old(State()), task, slave)
    {
      var key := KeyOf(slave);
      slaveBusyStatus := slaveBusyStatus[key := true];
      if key !in slaveTaskCount {
        slaveTaskCount := slaveTaskCount[key := 0];
      }
      slaveTaskCount := slaveTaskCount[key := slaveTaskCount[key] + 1];
      sent := sent + [Outgoing(task.message, slave.ipAddress, slave.port)];
    }

    /** `Queue<PendingTask>.Enqueue`: adds a task at the back. */
    method Enqueue(task: PendingTask)
      modifies this`taskQueue
      ensures State() == old(State()).(queue := old(taskQueue) + [task])
    {
      taskQueue := taskQueue + [task];
    }

    /** `Queue<PendingTask>.Dequeue`: removes and returns the oldest task. */
    method Dequeue() returns (task: PendingTask)
      requires |taskQueue| > 0
      modifies this`taskQueue
      ensures task == old(taskQueue[0])
      ensures State() == old(State()).(queue := old(taskQueue[1..]))
    {
      task := taskQueue[0];
      taskQueue := taskQueue[1..];
    }

    /** Hands queued tasks, oldest first, to free slaves until the queue is empty or no
        slave is free. */
    method ProcessTaskQueue()
      requires Valid()
      modifies this
      ensures Valid() && State() == Drain(old(State()))
    {
      while |taskQueue| > 0
        invariant Valid()
        invariant Drain(State()) == Drain(old(State()))
        decreases |taskQueue|
      {
        ghost var s := State();
        var freeSlave := FindFreeSlave();
        if freeSlave.None? {
          break;
        }
        var task := Dequeue();
        assert task == s.queue[0] && freeSlave.value == s.slaves[Selection(s).value];
        AssignPreservesValid(State(), task, Selection(s).value);
        AssignTaskToSlave(task, freeSlave.value);
        SchedulerProperties.DrainUnfold(s);
      }
    }

    method SendAcknowledgment(ip: string, port: int)
      modifies this`sent
      ensures State() == Acknowledge(old(State()), ip, port)
    {
      sent := sent + [Outgoing(Ack(), ip, port)];
    }

    /** A registration body from a new (ip, port) enrols that slave, free and with no
        tasks, and drains the queue; a known one is not added again; either way the
        sender named in the body is acknowledged. `slaveId` is the fresh id. */
    method HandleSlaveRegistration(msg: NetworkMessage, slaveId: string)
      requires Valid()
      modifies this
      ensures Valid() && State() == Register(old(State()), msg, slaveId)
    {
      match msg.data {
        case RegistrationJson(regData) =>
          var slaveInfo := SlaveInfo(slaveId, regData.ipAddress, regData.port);
          if !Registered(State(), slaveInfo.ipAddress, slaveInfo.port) {
            EnrolPreservesValid(State(), slaveInfo);
            registeredSlaves := registeredSlaves + [slaveInfo];
            var slaveKey := KeyOf(slaveInfo);
            slaveBusyStatus := slaveBusyStatus[slaveKey := false];
            slaveTaskCount := slaveTaskCount[slaveKey := 0];
            assert State() == Enrol(old(State()), slaveInfo);
            ProcessTaskQueue();
            SendAcknowledgment(slaveInfo.ipAddress, slaveInfo.port);
          } else {
            SendAcknowledgment(slaveInfo.ipAddress, slaveInfo.port);
          }
        case _ =>
      }
    }

    /** A client request: dropped with no slave registered; otherwise counted, its client
        recorded under the packet id, and sent to a free slave or queued. */
    method HandleImageRequest(msg: NetworkMessage)
      requires Valid()
      modifies this
      ensures Valid() && State() == Request(old(State()), msg)
    {
      if |registeredSlaves| == 0 {
        return;
      }
      match msg.data {
        case PacketJson(packet) =>
          totalTasksReceived := totalTasksReceived + 1;
          var clientInfo := ClientRequestInfo(msg.senderIp, msg.senderPort, packet.fileName);
          pendingRequests := pendingRequests[packet.packetId := clientInfo];
          var task := PendingTask(NetworkMessage(ImageRequest, msg.data, "", 0),
                                  packet.packetId, packet.fileName, clientInfo);
          ghost var admitted := State();
          assert admitted == Admit(old(State()), msg, packet) && task == TaskFor(msg, packet);
          var freeSlave := FindFreeSlave();
          if freeSlave.Some? {
            ghost var i := Selection(admitted).value;
            assert freeSlave.value == admitted.slaves[i];
            AssignPreservesValid(State(), task, i);
            AssignTaskToSlave(task, freeSlave.value);
            assert State() == Assign(AfterFind(admitted), task, admitted.slaves[i]);
          } else {
            Enqueue(task);
          }
        case _ =>
      }
    }

    /** A slave's result: frees the slave keyed by the sender's address and the packet's
        slave port, forwards the result to the recorded client and forgets it, then drains
        the queue. */
    method HandleImageResponse(msg: NetworkMessage)
      requires Valid()
      modifies this
      ensures Valid() && State() == Response(old(State()), msg)
    {
      match msg.data {
        case PacketJson(packet) =>
          var slaveKey := SlaveKey(msg.senderIp, packet.slavePort);
          totalTasksCompleted := totalTasksCompleted + 1;
          if slaveKey in slaveBusyStatus {
            slaveBusyStatus := slaveBusyStatus[slaveKey := false];
          }
          if packet.packetId in pendingRequests {
            var clientInfo := pendingRequests[packet.packetId];
            var clientMessage := NetworkMessage(ImageResponse, msg.data, "", 0);
            sent := sent + [Outgoing(clientMessage, clientInfo.clientIp, clientInfo.clientPort)];
            pendingRequests := pendingRequests - {packet.packetId};
          }
          assert State() == ReleaseAndForward(old(State()), msg, packet);
          ReleasePreservesValid(old(State()), msg, packet);
          ProcessTaskQueue();
        case _ =>
      }
    }

    /** Dispatch on the message type; an acknowledgment is ignored. */
    method OnMessageReceived(msg: NetworkMessage, slaveId: string)
      requires Valid()
      modifies this
      ensures Valid() && State() == Step(old(State()), msg, slaveId)
    {
      match msg.msgType {
        case SlaveRegister => HandleSlaveRegistration(msg, slaveId);
        case ImageRequest => HandleImageRequest(msg);
        case ImageResponse => HandleImageResponse(msg);
        case Acknowledgment =>
      }
    }
  }
}
