/** The master's scheduling rules (Nodes/MasterNode.cs) as functions on a value that
    holds every field the master updates. Each inbound message is one transition;
    the class in master.dfy is proved to perform exactly these transitions. */
module Scheduling {
  import opened Messages

  /** The registry key `$"{IpAddress}:{Port}"`. Formatting an int never yields ':',
      so the string is determined by, and determines, the pair. */
  datatype SlaveKey = SlaveKey(ip: string, port: int)

  /** `SlaveInfo` without its registration time. */
  datatype SlaveInfo = SlaveInfo(slaveId: string, ipAddress: string, port: int)

  /** `ClientRequestInfo` without its request time. */
  datatype ClientRequestInfo = ClientRequestInfo(clientIp: string, clientPort: int, fileName: string)

  datatype PendingTask = PendingTask(
    message: NetworkMessage,
    packetId: string,
    fileName: string,
    clientInfo: ClientRequestInfo)

  /** Every field of the master that its handlers update, plus the sends it has made. */
  datatype MasterState = MasterState(
    slaves: seq<SlaveInfo>,                       // _registeredSlaves
    busy: map<SlaveKey, bool>,                    // _slaveBusyStatus
    taskCount: map<SlaveKey, int>,                // _slaveTaskCount
    queue: seq<PendingTask>,                      // _taskQueue, front first
    pending: map<string, ClientRequestInfo>,      // _pendingRequests
    cursor: int,                                  // _roundRobinIndex
    received: int,                                // _totalTasksReceived
    completed: int,                               // _totalTasksCompleted
    outbox: seq<Outgoing>)                        // calls of SendMessageAsync, oldest first

  const EmptyMaster := MasterState([], map[], map[], [], map[], 0, 0, 0, [])

  function KeyOf(slave: SlaveInfo): SlaveKey
  {
    SlaveKey(slave.ipAddress, slave.port)
  }

  /** The keys of a registry. */
  function Keys(slaves: seq<SlaveInfo>): set<SlaveKey>
  {
    if |slaves| == 0 then {} else Keys(slaves[..|slaves| - 1]) + {KeyOf(slaves[|slaves| - 1])}
  }

  lemma {:induction false} KeysMembership(slaves: seq<SlaveInfo>, k: SlaveKey)
    ensures k in Keys(slaves) <==> exists i :: 0 <= i < |slaves| && KeyOf(slaves[i]) == k
  {
    if |slaves| > 0 {
      var init := slaves[..|slaves| - 1];
      KeysMembership(init, k);
      if k in Keys(init) {
        var i :| 0 <= i < |init| && KeyOf(init[i]) == k;
        assert KeyOf(slaves[i]) == k;
      }
      if exists i :: 0 <= i < |slaves| && KeyOf(slaves[i]) == k {
        var i :| 0 <= i < |slaves| && KeyOf(slaves[i]) == k;
        if i < |init| {
          assert KeyOf(init[i]) == k;
        }
      }
    }
  }

  lemma KeyOfRegistered(slaves: seq<SlaveInfo>, i: int)
    requires 0 <= i < |slaves|
    ensures KeyOf(slaves[i]) in Keys(slaves)
  {
    KeysMembership(slaves, KeyOf(slaves[i]));
  }

  /** Whether `(ip, port)` is in the registry (the `FirstOrDefault` lookup). */
  predicate Registered(s: MasterState, ip: string, port: int)
  {
    exists i :: 0 <= i < |s.slaves| && s.slaves[i].ipAddress == ip && s.slaves[i].port == port
  }

  predicate CursorOk(s: MasterState)
  {
    0 <= s.cursor && (s.cursor < |s.slaves| || s.cursor == 0)
  }

  /** The master's invariant: no key is registered twice, the busy map and the task
      counters have exactly the registered keys, and the cursor points into the registry. */
  ghost predicate Valid(s: MasterState)
  {
    && (forall i, j :: 0 <= i < j < |s.slaves| ==> KeyOf(s.slaves[i]) != KeyOf(s.slaves[j]))
    && s.busy.Keys == Keys(s.slaves)
    && s.taskCount.Keys == Keys(s.slaves)
    && CursorOk(s)
  }

  /** The test `_slaveBusyStatus.ContainsKey(key) && !_slaveBusyStatus[key]`. */
  predicate IsFree(s: MasterState, i: int)
    requires 0 <= i < |s.slaves|
  {
    var k := KeyOf(s.slaves[i]);
    k in s.busy && !s.busy[k]
  }

  /** The registry index visited at step `d` of the cyclic scan. */
  function Slot(s: MasterState, d: int): nat
    requires |s.slaves| > 0
  {
    (s.cursor + d) % |s.slaves|
  }

  /** The first step at or after `d` of the cyclic scan that meets a free slave. */
  function FirstFreeFrom(s: MasterState, d: nat): (r: Option<nat>)
    requires 0 < |s.slaves| && d <= |s.slaves|
    decreases |s.slaves| - d
    ensures r.Some? ==> d <= r.value < |s.slaves| && IsFree(s, Slot(s, r.value))
    ensures r.Some? ==> forall e :: d <= e < r.value ==> !IsFree(s, Slot(s, e))
    ensures r.None? ==> forall e :: d <= e < |s.slaves| ==> !IsFree(s, Slot(s, e))
  {
    if d == |s.slaves| then None
    else if IsFree(s, Slot(s, d)) then Some(d)
    else FirstFreeFrom(s, d + 1)
  }

  /** A scan that passes only busy slaves before meeting a free one stops there. */
  lemma {:induction false} FirstFreeIs(s: MasterState, d: nat, i: nat)
    requires 0 < |s.slaves| && d <= i < |s.slaves|
    requires forall e :: d <= e < i ==> !IsFree(s, Slot(s, e))
    requires IsFree(s, Slot(s, i))
    decreases i - d
    ensures FirstFreeFrom(s, d) == Some(i)
  {
    if d < i {
      FirstFreeIs(s, d + 1, i);
    }
  }

  /** Every registry index is met by the cyclic scan. */
  lemma SlotCovers(s: MasterState, i: int)
    requires CursorOk(s) && 0 <= i < |s.slaves|
    ensures exists d :: 0 <= d < |s.slaves| && Slot(s, d) == i
  {
    var n := |s.slaves|;
    if s.cursor <= i {
      ModBelow(i, n);
      assert Slot(s, i - s.cursor) == i;
    } else {
      ModWrap(i, n);
      assert Slot(s, i - s.cursor + n) == i;
    }
  }

  lemma ModBelow(a: int, n: int)
    requires 0 <= a < n
    ensures a % n == a
  {
  }

  lemma ModWrap(a: int, n: int)
    requires 0 <= a < n
    ensures (a + n) % n == a
  {
  }

  /** The slave `FindFreeSlave` picks: the first free one met scanning the registry
      cyclically from the cursor, or none when no registered slave is free. */
  function Selection(s: MasterState): (r: Option<nat>)
    requires CursorOk(s)
    ensures r.Some? ==> r.value < |s.slaves| && IsFree(s, r.value)
    ensures r.None? <==> forall i :: 0 <= i < |s.slaves| ==> !IsFree(s, i)
  {
    if |s.slaves| == 0 then None
    else
      match FirstFreeFrom(s, 0)
      case None =>
        assert forall i :: 0 <= i < |s.slaves| ==> !IsFree(s, i) by {
          forall i | 0 <= i < |s.slaves| ensures !IsFree(s, i) {
            SlotCovers(s, i);
          }
        }
        None
      case Some(d) => Some(Slot(s, d))
  }

  /** The state after `FindFreeSlave`: the cursor moves one past the pick, if any. */
  function AfterFind(s: MasterState): (r: MasterState)
    requires CursorOk(s)
    ensures CursorOk(r) && r == s.(cursor := r.cursor)
  {
    match Selection(s)
    case None => s
    case Some(i) => s.(cursor := (i + 1) % |s.slaves|)
  }

  /** `AssignTaskToSlave`: mark busy, count the task now, send it to the slave. */
  function Assign(s: MasterState, task: PendingTask, slave: SlaveInfo): MasterState
  {
    var k := KeyOf(slave);
    s.(busy := s.busy[k := true],
       taskCount := s.taskCount[k := (if k in s.taskCount then s.taskCount[k] else 0) + 1],
       outbox := s.outbox + [Outgoing(task.message, slave.ipAddress, slave.port)])
  }

  lemma AssignPreservesValid(s: MasterState, task: PendingTask, i: int)
    requires Valid(s) && 0 <= i < |s.slaves|
    ensures Valid(Assign(s, task, s.slaves[i]))
  {
    KeyOfRegistered(s.slaves, i);
  }

  /** `ProcessTaskQueue`: while tasks wait and a slave is free, hand the oldest task
      to the slave `FindFreeSlave` names. */
  function Drain(s: MasterState): (r: MasterState)
    requires CursorOk(s)
    decreases |s.queue|
    ensures CursorOk(r)
    ensures r.slaves == s.slaves && r.pending == s.pending
    ensures r.received == s.received && r.completed == s.completed
    ensures |s.outbox| <= |r.outbox| && r.outbox[..|s.outbox|] == s.outbox
  {
    if |s.queue| == 0 then s
    else
      match Selection(s)
      case None => s
      case Some(i) =>
        var a := AfterFind(s).(queue := s.queue[1..]);
        var t := Assign(a, s.queue[0], s.slaves[i]);
        assert t.slaves == s.slaves && t.pending == s.pending;
        assert t.received == s.received && t.completed == s.completed;
        assert t.outbox == s.outbox + [Outgoing(s.queue[0].message, s.slaves[i].ipAddress, s.slaves[i].port)];
        var r := Drain(t);
        PrefixOfPrefix(s.outbox, t.outbox, r.outbox);
        r
  }

  /** A prefix of a prefix is a prefix. */
  lemma PrefixOfPrefix<T>(a: seq<T>, b: seq<T>, c: seq<T>)
    requires |a| <= |b| && b[..|a|] == a && |b| <= |c| && c[..|b|] == b
    ensures |a| <= |c| && c[..|a|] == a
  {
    assert c[..|a|] == c[..|b|][..|a|];
  }

  /** The drain keeps the master's invariant. */
  lemma {:induction false} DrainPreservesValid(s: MasterState)
    requires Valid(s)
    decreases |s.queue|
    ensures Valid(Drain(s))
  {
    if |s.queue| > 0 && Selection(s).Some? {
      var i := Selection(s).value;
      var a := AfterFind(s).(queue := s.queue[1..]);
      AssignPreservesValid(a, s.queue[0], i);
      DrainPreservesValid(Assign(a, s.queue[0], s.slaves[i]));
    }
  }

  /** Adds a new slave, free and with no tasks (lines 100-106). */
  function Enrol(s: MasterState, slave: SlaveInfo): MasterState
  {
    var k := KeyOf(slave);
    s.(slaves := s.slaves + [slave], busy := s.busy[k := false], taskCount := s.taskCount[k := 0])
  }

  lemma EnrolPreservesValid(s: MasterState, slave: SlaveInfo)
    requires Valid(s) && !Registered(s, slave.ipAddress, slave.port)
    ensures Valid(Enrol(s, slave))
  {
    var t := Enrol(s, slave);
    assert t.slaves[..|t.slaves| - 1] == s.slaves;
    forall i, j | 0 <= i < j < |t.slaves| ensures KeyOf(t.slaves[i]) != KeyOf(t.slaves[j]) {
      if j == |s.slaves| {
        assert !(s.slaves[i].ipAddress == slave.ipAddress && s.slaves[i].port == slave.port);
      }
    }
  }

  function Ack(): NetworkMessage
  {
    NetworkMessage(Acknowledgment, Text("OK"), "", 0)
  }

  /** The acknowledgment to (ip, port) appended to what was sent. */
  function Acknowledge(s: MasterState, ip: string, port: int): (r: MasterState)
    ensures Valid(s) ==> Valid(r)
    ensures r.outbox == s.outbox + [Outgoing(Ack(), ip, port)]
    ensures r.(outbox := s.outbox) == s
  {
    s.(outbox := s.outbox + [Outgoing(Ack(), ip, port)])
  }

  /** `HandleSlaveRegistration`: a new (ip, port) is enrolled and the queue drained;
      a known one changes nothing; either way an acknowledgment goes to (ip, port).
      A payload that is not a registration body is the exception path. */
  function Register(s: MasterState, msg: NetworkMessage, slaveId: string): MasterState
    requires Valid(s)
  {
    match msg.data
    case RegistrationJson(reg) =>
      var slave := SlaveInfo(slaveId, reg.ipAddress, reg.port);
      if Registered(s, reg.ipAddress, reg.port) then Acknowledge(s, reg.ipAddress, reg.port)
      else Acknowledge(Drain(Enrol(s, slave)), reg.ipAddress, reg.port)
    case _ => s
  }

  /** The queued form of a client request (lines 170-192). */
  function TaskFor(msg: NetworkMessage, p: ImagePacket): PendingTask
  {
    PendingTask(NetworkMessage(ImageRequest, msg.data, "", 0), p.packetId, p.fileName,
                ClientRequestInfo(msg.senderIp, msg.senderPort, p.fileName))
  }

  /** Records the requesting client and counts the task (lines 147, 170-179). */
  function Admit(s: MasterState, msg: NetworkMessage, p: ImagePacket): MasterState
  {
    s.(received := s.received + 1,
       pending := s.pending[p.packetId := TaskFor(msg, p).clientInfo])
  }

  /** `HandleImageRequest`: dropped when no slave is registered; otherwise the client is
      recorded and the task goes to a free slave at once or to the back of the queue. */
  function Request(s: MasterState, msg: NetworkMessage): MasterState
    requires Valid(s)
  {
    if |s.slaves| == 0 then s
    else
      match msg.data
      case PacketJson(p) =>
        var s1 := Admit(s, msg, p);
        var task := TaskFor(msg, p);
        (match Selection(s1)
         case None => s1.(queue := s1.queue + [task])
         case Some(i) => Assign(AfterFind(s1), task, s1.slaves[i]))
      case _ => s
  }

  /** The part of `HandleImageResponse` before the queue is drained: the slave keyed by
      the sender's address and the packet's `SlavePort` is freed if known, and the result
      is forwarded verbatim to the recorded client, whose entry is removed. */
  function ReleaseAndForward(s: MasterState, msg: NetworkMessage, p: ImagePacket): MasterState
  {
    var k := SlaveKey(msg.senderIp, p.slavePort);
    var s1 := s.(completed := s.completed + 1,
                 busy := if k in s.busy then s.busy[k := false] else s.busy);
    if p.packetId in s.pending then
      var client := s.pending[p.packetId];
      s1.(outbox := s1.outbox + [Outgoing(NetworkMessage(ImageResponse, msg.data, "", 0),
                                          client.clientIp, client.clientPort)],
          pending := s1.pending - {p.packetId})
    else s1
  }

  /** Freeing a slave and forwarding a result keep the master's invariant. */
  lemma ReleasePreservesValid(s: MasterState, msg: NetworkMessage, p: ImagePacket)
    requires Valid(s)
    ensures Valid(ReleaseAndForward(s, msg, p))
  {
    var r := ReleaseAndForward(s, msg, p);
    assert r.slaves == s.slaves && r.taskCount == s.taskCount && r.cursor == s.cursor;
    assert r.busy.Keys == s.busy.Keys;
  }

  /** `HandleImageResponse`. */
  function Response(s: MasterState, msg: NetworkMessage): MasterState
    requires Valid(s)
  {
    match msg.data
    case PacketJson(p) => Drain(ReleaseAndForward(s, msg, p))
    case _ => s
  }

  /** `OnMessageReceived`: one inbound message, one transition. `slaveId` is the fresh
      id a registration would mint. */
  function Step(s: MasterState, msg: NetworkMessage, slaveId: string): MasterState
    requires Valid(s)
  {
    match msg.msgType
    case SlaveRegister => Register(s, msg, slaveId)
    case ImageRequest => Request(s, msg)
    case ImageResponse => Response(s, msg)
    case Acknowledgment => s
  }

  /** `OnMessageReceived` dispatches on the message type alone. */
  lemma StepByType(s: MasterState, msg: NetworkMessage, slaveId: string)
    requires Valid(s)
    ensures msg.msgType == SlaveRegister ==> Step(s, msg, slaveId) == Register(s, msg, slaveId)
    ensures msg.msgType == ImageRequest ==> Step(s, msg, slaveId) == Request(s, msg)
    ensures msg.msgType == ImageResponse ==> Step(s, msg, slaveId) == Response(s, msg)
    ensures msg.msgType == Acknowledgment ==> Step(s, msg, slaveId) == s
  {
  }
}
