/** What the master's transitions (module Scheduling) guarantee. */
module SchedulerProperties {
  import opened Messages
  import opened Scheduling

  /** Where a send goes, as a registry key. */
  function Dest(o: Outgoing): SlaveKey
  {
    SlaveKey(o.ip, o.port)
  }

  // ---------------------------------------------------------------- FindFreeSlave

  /** The pick is the first free slave met scanning cyclically from the cursor: every
      slave passed over on the way is busy. */
  lemma SelectionIsFirstFree(s: MasterState)
    requires Valid(s) && Selection(s).Some?
    ensures exists d :: 0 <= d < |s.slaves| && Selection(s).value == Slot(s, d)
                        && forall e :: 0 <= e < d ==> !IsFree(s, Slot(s, e))
  {
    var d := FirstFreeFrom(s, 0).value;
    assert Selection(s).value == Slot(s, d);
  }

  /** A free slave under the cursor is picked, and the cursor moves one past it. */
  lemma SelectionPrefersCursor(s: MasterState)
    requires Valid(s) && 0 < |s.slaves| && IsFree(s, s.cursor)
    ensures Selection(s) == Some(s.cursor)
    ensures AfterFind(s).cursor == (s.cursor + 1) % |s.slaves|
  {
    ModBelow(s.cursor, |s.slaves|);
    assert Slot(s, 0) == s.cursor;
  }

  /** After a pick the cursor still points into the registry, and nothing else changed. */
  lemma FindKeepsCursorInRange(s: MasterState)
    requires Valid(s)
    ensures Valid(AfterFind(s))
    ensures AfterFind(s) == s.(cursor := AfterFind(s).cursor)
    ensures 0 < |s.slaves| ==> 0 <= AfterFind(s).cursor < |s.slaves|
  {
  }

  // ---------------------------------------------------------------- AssignTaskToSlave

  /** The chosen slave becomes busy, its counter grows at dispatch time, exactly one send of
      the task goes to its address, and no other slave's flag or counter moves. */
  lemma AssignEffects(s: MasterState, task: PendingTask, i: int)
    requires Valid(s) && 0 <= i < |s.slaves|
    ensures var r := Assign(s, task, s.slaves[i]); var k := KeyOf(s.slaves[i]);
      && Valid(r)
      && r.busy[k] && r.taskCount[k] == s.taskCount[k] + 1
      && (forall k' :: k' in s.busy && k' != k ==> r.busy[k'] == s.busy[k'])
      && (forall k' :: k' in s.taskCount && k' != k ==> r.taskCount[k'] == s.taskCount[k'])
      && r.outbox == s.outbox + [Outgoing(task.message, s.slaves[i].ipAddress, s.slaves[i].port)]
      && r.slaves == s.slaves && r.queue == s.queue && r.pending == s.pending
  {
    AssignPreservesValid(s, task, i);
    KeyOfRegistered(s.slaves, i);
  }

  // ---------------------------------------------------------------- ProcessTaskQueue

  /** One round of the drain: the front task goes to the selected slave, then the drain
      goes on from there. */
  lemma DrainUnfold(s: MasterState)
    requires CursorOk(s) && |s.queue| > 0 && Selection(s).Some?
    ensures var i := Selection(s).value;
      var a := AfterFind(s).(queue := s.queue[1..]);
      && CursorOk(Assign(a, s.queue[0], s.slaves[i]))
      && Drain(s) == Drain(Assign(a, s.queue[0], s.slaves[i]))
  {
  }

  /** A log that starts with `prefix + [first]` splits, after `prefix`, into `first` and the rest. */
  lemma SplitAfter(prefix: seq<Outgoing>, first: Outgoing, log: seq<Outgoing>)
    requires |prefix| < |log| && log[..|prefix| + 1] == prefix + [first]
    ensures var sent := log[|prefix|..];
      && log == prefix + sent && sent[0] == first && sent[1..] == log[|prefix| + 1..]
  {
    assert log[..|prefix|] == log[..|prefix| + 1][..|prefix|];
    assert log == log[..|prefix|] + log[|prefix|..];
  }

  /** The drain takes tasks from the front of the queue: what stays is a suffix. */
  lemma {:induction false} DrainTakesFromFront(s: MasterState)
    requires CursorOk(s)
    decreases |s.queue|
    ensures var r := Drain(s); var k := |s.queue| - |r.queue|;
      0 <= k <= |s.queue| && r.queue == s.queue[k..]
  {
    if |s.queue| > 0 && Selection(s).Some? {
      var t := Assign(AfterFind(s).(queue := s.queue[1..]), s.queue[0], s.slaves[Selection(s).value]);
      DrainUnfold(s);
      DrainTakesFromFront(t);
      var r := Drain(t);
      assert Drain(s) == r;
      var later := |t.queue| - |r.queue|;
      assert t.queue == s.queue[1..] && r.queue == t.queue[later..];
      TailSuffix(s.queue, later);
      assert Drain(s).queue == s.queue[later + 1..] && |s.queue| - |Drain(s).queue| == later + 1;
    }
  }

  /** A suffix of the tail is a suffix of the whole. */
  lemma TailSuffix<T>(q: seq<T>, later: int)
    requires 0 <= later < |q|
    ensures q[1..][later..] == q[later + 1..]
  {
  }

  /** The queue is drained from the front: the first k tasks leave in order and each
      becomes exactly one send, appended in the same order; the rest of the queue stays. */
  lemma {:induction false} DrainDispatchesInOrder(s: MasterState)
    requires CursorOk(s)
    decreases |s.queue|
    ensures var r := Drain(s); var k := |s.queue| - |r.queue|; var sent := r.outbox[|s.outbox|..];
      && 0 <= k <= |s.queue| && r.queue == s.queue[k..]
      && |s.outbox| <= |r.outbox| && r.outbox == s.outbox + sent && |sent| == k
      && (forall j :: 0 <= j < k ==> sent[j].message == s.queue[j].message)
  {
    DrainTakesFromFront(s);
    if |s.queue| > 0 && Selection(s).Some? {
      var i := Selection(s).value;
      var slave := s.slaves[i];
      var t := Assign(AfterFind(s).(queue := s.queue[1..]), s.queue[0], slave);
      DrainUnfold(s);
      DrainDispatchesInOrder(t);
      var r := Drain(t);
      var n := |s.outbox|;
      var first := Outgoing(s.queue[0].message, slave.ipAddress, slave.port);
      assert t.outbox == s.outbox + [first];
      assert t.queue == s.queue[1..];
      SplitAfter(s.outbox, first, r.outbox);
      var sent := r.outbox[n..];
      var later := r.outbox[|t.outbox|..];
      assert Drain(s) == r && sent[1..] == later;
      assert |sent| == |later| + 1 == |s.queue| - |r.queue|;
      assert sent[0] == first;
      MessagesFollowQueue(s.queue, sent);
    }
  }

  /** Sends that match the queue's first task and, after it, the rest of the queue
      match the queue from its front. */
  lemma MessagesFollowQueue(queue: seq<PendingTask>, sent: seq<Outgoing>)
    requires 0 < |sent| <= |queue| && sent[0].message == queue[0].message
    requires forall j :: 0 <= j < |sent| - 1 ==> sent[1..][j].message == queue[1..][j].message
    ensures forall j :: 0 <= j < |sent| ==> sent[j].message == queue[j].message
  {
    forall j | 0 < j < |sent| ensures sent[j].message == queue[j].message {
      assert sent[1..][j - 1] == sent[j] && queue[1..][j - 1] == queue[j];
    }
  }

  /** The drain frees no slave: a slave busy before it is busy after it. */
  lemma {:induction false} DrainFreesNoSlave(s: MasterState, key: SlaveKey)
    requires CursorOk(s) && key in s.busy && s.busy[key]
    decreases |s.queue|
    ensures key in Drain(s).busy && Drain(s).busy[key]
  {
    if |s.queue| > 0 && Selection(s).Some? {
      var t := Assign(AfterFind(s).(queue := s.queue[1..]), s.queue[0], s.slaves[Selection(s).value]);
      DrainUnfold(s);
      assert key in t.busy && t.busy[key];
      DrainFreesNoSlave(t, key);
    }
  }

  /** Every slave the drain sends a task to is busy afterwards. */
  lemma {:induction false} DrainLeavesTargetsBusy(s: MasterState)
    requires CursorOk(s)
    decreases |s.queue|
    ensures var r := Drain(s);
      forall j :: |s.outbox| <= j < |r.outbox| ==> Dest(r.outbox[j]) in r.busy && r.busy[Dest(r.outbox[j])]
  {
    if |s.queue| > 0 && Selection(s).Some? {
      var i := Selection(s).value;
      var slave := s.slaves[i];
      var t := Assign(AfterFind(s).(queue := s.queue[1..]), s.queue[0], slave);
      DrainUnfold(s);
      DrainLeavesTargetsBusy(t);
      var r := Drain(t);
      var n := |s.outbox|;
      var first := Outgoing(s.queue[0].message, slave.ipAddress, slave.port);
      assert t.outbox == s.outbox + [first];
      KeyOfRegistered(s.slaves, i);
      assert Dest(first) == KeyOf(slave) && KeyOf(slave) in t.busy && t.busy[KeyOf(slave)];
      DrainFreesNoSlave(t, Dest(first));
      assert r.outbox[n] == r.outbox[..|t.outbox|][n] == first;
      assert Drain(s) == r;
      forall j | n <= j < |r.outbox| ensures Dest(r.outbox[j]) in r.busy && r.busy[Dest(r.outbox[j])] {
        if j > n {
          assert |t.outbox| <= j;
        }
      }
    }
  }

  /** When the drain stops, the queue is empty or every registered slave is busy. */
  lemma {:induction false} DrainStopsWhenEmptyOrAllBusy(s: MasterState)
    requires CursorOk(s)
    decreases |s.queue|
    ensures var r := Drain(s);
      r.queue == [] || forall i :: 0 <= i < |r.slaves| ==> !IsFree(r, i)
  {
    if |s.queue| > 0 && Selection(s).Some? {
      var i := Selection(s).value;
      var a := AfterFind(s).(queue := s.queue[1..]);
      DrainStopsWhenEmptyOrAllBusy(Assign(a, s.queue[0], s.slaves[i]));
    }
  }

  /** With a task waiting and a slave free, the drain dispatches at least one task. */
  lemma DrainMakesProgress(s: MasterState)
    requires CursorOk(s) && |s.queue| > 0
    requires exists i :: 0 <= i < |s.slaves| && IsFree(s, i)
    ensures |Drain(s).queue| < |s.queue|
  {
    var i := Selection(s).value;
    var a := AfterFind(s).(queue := s.queue[1..]);
    DrainTakesFromFront(Assign(a, s.queue[0], s.slaves[i]));
  }

  // ---------------------------------------------------------------- HandleSlaveRegistration

  /** Registration always answers the (ip, port) in the body with an acknowledgment,
      as the last send, after whatever the drain sent; earlier sends are kept. */
  lemma RegisterAlwaysAcknowledges(s: MasterState, msg: NetworkMessage, slaveId: string)
    requires Valid(s) && msg.data.RegistrationJson?
    ensures var r := Register(s, msg, slaveId); var reg := msg.data.registration;
      && |r.outbox| > |s.outbox| && r.outbox[..|s.outbox|] == s.outbox
      && r.outbox[|r.outbox| - 1] == Outgoing(Ack(), reg.ipAddress, reg.port)
  {
    var reg := msg.data.registration;
    var slave := SlaveInfo(slaveId, reg.ipAddress, reg.port);
    if !Registered(s, reg.ipAddress, reg.port) {
      var e := Enrol(s, slave);
      assert e.outbox == s.outbox && CursorOk(e);
      var d := Drain(e);
      var r := Acknowledge(d, reg.ipAddress, reg.port);
      assert r == Register(s, msg, slaveId);
      assert r.outbox[..|s.outbox|] == d.outbox[..|s.outbox|];
    }
  }

  /** A slave already registered under (ip, port) changes neither the registry, the busy
      map, the counters, the queue, the pending map nor the cursor. */
  lemma RegisterKnownSlaveChangesNothing(s: MasterState, msg: NetworkMessage, slaveId: string)
    requires Valid(s) && msg.data.RegistrationJson?
    requires Registered(s, msg.data.registration.ipAddress, msg.data.registration.port)
    ensures var r := Register(s, msg, slaveId);
      && r.slaves == s.slaves && r.busy == s.busy && r.taskCount == s.taskCount
      && r.queue == s.queue && r.pending == s.pending && r.cursor == s.cursor
  {
  }

  /** A new (ip, port) is appended to the registry; the invariant (busy keys equal the
      registered keys) holds afterwards; with an empty queue the newcomer is free with a
      zero count, and with waiting tasks at least one of them is dispatched. */
  lemma RegisterNewSlave(s: MasterState, msg: NetworkMessage, slaveId: string)
    requires Valid(s) && msg.data.RegistrationJson?
    requires !Registered(s, msg.data.registration.ipAddress, msg.data.registration.port)
    ensures var r := Register(s, msg, slaveId); var reg := msg.data.registration;
      var k := SlaveKey(reg.ipAddress, reg.port);
      && r.slaves == s.slaves + [SlaveInfo(slaveId, reg.ipAddress, reg.port)]
      && Valid(r) && r.busy.Keys == Keys(r.slaves)
      && (s.queue == [] ==> !r.busy[k] && r.taskCount[k] == 0)
      && (s.queue != [] ==> |r.queue| < |s.queue|)
  {
    var reg := msg.data.registration;
    var slave := SlaveInfo(slaveId, reg.ipAddress, reg.port);
    var e := Enrol(s, slave);
    EnrolPreservesValid(s, slave);
    DrainPreservesValid(e);
    var d := Drain(e);
    assert Register(s, msg, slaveId) == Acknowledge(d, reg.ipAddress, reg.port);
    if s.queue != [] {
      assert IsFree(e, |s.slaves|);
      DrainMakesProgress(e);
    } else {
      assert d == e;
    }
  }

  // ---------------------------------------------------------------- HandleImageRequest

  /** With no slave registered a request changes nothing: no pending entry, no queueing,
      no count. */
  lemma RequestWithoutSlavesIsDropped(s: MasterState, msg: NetworkMessage)
    requires Valid(s) && |s.slaves| == 0
    ensures Request(s, msg) == s
  {
  }

  /** A request records its client under the packet id (replacing any earlier entry) and
      counts itself. If `FindFreeSlave` names slave i, the task is sent to that slave's
      address at once, the slave becomes busy, its counter grows by one and the cursor
      moves past it; otherwise the task is appended to the back of the queue and nothing
      else changes. It is queued exactly when no slave is free. */
  lemma RequestAssignsOrQueues(s: MasterState, msg: NetworkMessage)
    requires Valid(s) && |s.slaves| > 0 && msg.data.PacketJson?
    ensures var r := Request(s, msg); var p := msg.data.packet; var task := TaskFor(msg, p);
      && Valid(r)
      && r.pending == s.pending[p.packetId := ClientRequestInfo(msg.senderIp, msg.senderPort, p.fileName)]
      && r.received == s.received + 1
      && r.slaves == s.slaves && r.completed == s.completed
      && (Selection(s).None? ==>
            && r.queue == s.queue + [task] && r.outbox == s.outbox
            && r.busy == s.busy && r.taskCount == s.taskCount && r.cursor == s.cursor)
      && (Selection(s).Some? ==>
            var i := Selection(s).value; var k := KeyOf(s.slaves[i]);
            && k in Keys(s.slaves) && !s.busy[k]
            && r.queue == s.queue
            && r.outbox == s.outbox + [Outgoing(task.message, s.slaves[i].ipAddress, s.slaves[i].port)]
            && r.busy == s.busy[k := true]
            && r.taskCount == s.taskCount[k := s.taskCount[k] + 1]
            && r.cursor == (i + 1) % |s.slaves|)
      && (r.queue == s.queue + [task] <==> forall i :: 0 <= i < |s.slaves| ==> !IsFree(s, i))
  {
    var p := msg.data.packet;
    var s1 := Admit(s, msg, p);
    var task := TaskFor(msg, p);
    SelectionSameScan(s, s1);
    var r := Request(s, msg);
    match Selection(s) {
      case None =>
        assert r == s1.(queue := s1.queue + [task]);
      case Some(i) =>
        var a := AfterFind(s1);
        assert a == s1.(cursor := (i + 1) % |s.slaves|);
        assert r == Assign(a, task, s.slaves[i]);
        AssignPreservesValid(a, task, i);
        KeyOfRegistered(s.slaves, i);
        assert |r.queue| != |s.queue + [task]|;
    }
  }

  /** The scan from a step reads only the registry, the busy flags and the cursor. */
  lemma {:induction false} FirstFreeSameScan(s: MasterState, t: MasterState, d: nat)
    requires 0 < |s.slaves| && d <= |s.slaves|
    requires t.slaves == s.slaves && t.busy == s.busy && t.cursor == s.cursor
    decreases |s.slaves| - d
    ensures FirstFreeFrom(t, d) == FirstFreeFrom(s, d)
  {
    if d < |s.slaves| {
      FirstFreeSameScan(s, t, d + 1);
    }
  }

  /** `FindFreeSlave` reads only the registry, the busy flags and the cursor. */
  lemma SelectionSameScan(s: MasterState, t: MasterState)
    requires CursorOk(s) && t.slaves == s.slaves && t.busy == s.busy && t.cursor == s.cursor
    ensures Selection(t) == Selection(s)
  {
    if |s.slaves| > 0 {
      FirstFreeSameScan(s, t, 0);
    }
  }

  /** A request keeps the invariant and the registry. */
  lemma RequestPreservesValid(s: MasterState, msg: NetworkMessage)
    requires Valid(s)
    ensures Valid(Request(s, msg)) && Request(s, msg).slaves == s.slaves
  {
    if |s.slaves| > 0 && msg.data.PacketJson? {
      RequestAssignsOrQueues(s, msg);
    }
  }

  // ---------------------------------------------------------------- round-robin fairness

  /** Requests handled one after another. */
  function RequestAll(s: MasterState, msgs: seq<NetworkMessage>): (r: MasterState)
    requires Valid(s)
    decreases |msgs|
    ensures Valid(r) && r.slaves == s.slaves
  {
    if |msgs| == 0 then s
    else
      RequestPreservesValid(s, msgs[0]);
      RequestAll(Request(s, msgs[0]), msgs[1..])
  }

  /** Step j of the cyclic scan, for j up to the registry size, without `%`. */
  lemma SlotValue(s: MasterState, j: int)
    requires CursorOk(s) && 0 < |s.slaves| && 0 <= j <= |s.slaves|
    ensures Slot(s, j) == if s.cursor + j < |s.slaves| then s.cursor + j else s.cursor + j - |s.slaves|
  {
    var n := |s.slaves|;
    if s.cursor + j < n {
      ModBelow(s.cursor + j, n);
    } else {
      ModWrap(s.cursor + j - n, n);
    }
  }

  /** Within one round the scan visits no index twice. */
  lemma SlotsDistinct(s: MasterState, a: int, b: int)
    requires CursorOk(s) && 0 <= a < b < |s.slaves|
    ensures Slot(s, a) != Slot(s, b)
  {
    SlotValue(s, a);
    SlotValue(s, b);
  }

  /** Scanning from the next cursor is scanning from the old one, one step later. */
  lemma SlotShift(s: MasterState, t: MasterState, j: int)
    requires CursorOk(s) && 0 < |s.slaves| && t.slaves == s.slaves && t.cursor == Slot(s, 1)
    requires 0 <= j && j + 1 <= |s.slaves|
    ensures Slot(t, j) == Slot(s, j + 1)
  {
    SlotValue(s, 1);
    SlotValue(s, j + 1);
    SlotValue(t, j);
  }

  /** Distinct registry indices carry distinct keys. */
  lemma KeysDistinct(s: MasterState, a: int, b: int)
    requires Valid(s) && 0 <= a < |s.slaves| && 0 <= b < |s.slaves| && a != b
    ensures KeyOf(s.slaves[a]) != KeyOf(s.slaves[b])
  {
    if b < a {
      assert KeyOf(s.slaves[b]) != KeyOf(s.slaves[a]);
    }
  }

  /** The send of request `msg` to registry slot `i`. */
  function ToSlot(s: MasterState, msg: NetworkMessage, i: int): Outgoing
    requires 0 <= i < |s.slaves|
  {
    Outgoing(NetworkMessage(ImageRequest, msg.data, "", 0), s.slaves[i].ipAddress, s.slaves[i].port)
  }

  /** The sends of a round that starts at the cursor: request j goes to the slave met at
      step j of the scan. */
  function RoundSends(s: MasterState, msgs: seq<NetworkMessage>): (sent: seq<Outgoing>)
    requires 0 < |s.slaves|
    ensures |sent| == |msgs|
  {
    seq(|msgs|, j requires 0 <= j < |msgs| => ToSlot(s, msgs[j], Slot(s, j)))
  }

  /** A request meeting a free slave under the cursor goes to it, and the cursor moves on. */
  lemma RequestToCursor(s: MasterState, msg: NetworkMessage)
    requires Valid(s) && 0 < |s.slaves| && msg.data.PacketJson? && IsFree(s, s.cursor)
    ensures var t := Request(s, msg);
      && t.outbox == s.outbox + [ToSlot(s, msg, s.cursor)]
      && t.cursor == Slot(s, 1) && t.queue == s.queue && t.slaves == s.slaves
      && t.busy == s.busy[KeyOf(s.slaves[s.cursor]) := true]
  {
    var p := msg.data.packet;
    var s1 := Admit(s, msg, p);
    SelectionPrefersCursor(s);
    SelectionSameScan(s, s1);
    var a := AfterFind(s1);
    assert a.cursor == Slot(s, 1) && a.outbox == s.outbox && a.busy == s.busy && a.queue == s.queue;
    assert Request(s, msg) == Assign(a, TaskFor(msg, p), s.slaves[s.cursor]);
  }

  /** After the first request of a round, the slaves further along the scan are still free. */
  lemma StillFreeAfterFirst(s: MasterState, t: MasterState, j: int)
    requires Valid(s) && 0 < |s.slaves| && t.slaves == s.slaves && t.cursor == Slot(s, 1)
    requires t.busy == s.busy[KeyOf(s.slaves[s.cursor]) := true]
    requires 0 <= j && j + 1 < |s.slaves| && IsFree(s, Slot(s, j + 1))
    ensures Slot(t, j) == Slot(s, j + 1) && IsFree(t, Slot(t, j))
  {
    SlotShift(s, t, j);
    SlotsDistinct(s, 0, j + 1);
    SlotValue(s, 0);
    KeysDistinct(s, s.cursor, Slot(s, j + 1));
  }

  /** A round from the cursor is its first send followed by a round from the next cursor. */
  lemma RoundSendsStep(s: MasterState, t: MasterState, msgs: seq<NetworkMessage>)
    requires CursorOk(s) && 0 < |s.slaves| && t.slaves == s.slaves && t.cursor == Slot(s, 1)
    requires 0 < |msgs| <= |s.slaves|
    ensures RoundSends(s, msgs) == [ToSlot(s, msgs[0], s.cursor)] + RoundSends(t, msgs[1..])
  {
    SlotValue(s, 0);
    var rest := RoundSends(t, msgs[1..]);
    forall j | 1 <= j < |msgs| ensures RoundSends(s, msgs)[j] == rest[j - 1] {
      SlotShift(s, t, j - 1);
    }
  }

  /** While the slaves met by the scan are free, consecutive requests go to them in scan
      order, one each, and the cursor advances by one per request. */
  lemma {:induction false} RoundRobinFrom(s: MasterState, msgs: seq<NetworkMessage>)
    requires Valid(s) && 0 < |s.slaves| && |msgs| <= |s.slaves|
    requires forall j :: 0 <= j < |msgs| ==> msgs[j].data.PacketJson?
    requires forall j :: 0 <= j < |msgs| ==> IsFree(s, Slot(s, j))
    decreases |msgs|
    ensures var r := RequestAll(s, msgs);
      r.outbox == s.outbox + RoundSends(s, msgs) && r.cursor == Slot(s, |msgs|) && r.queue == s.queue
  {
    SlotValue(s, 0);
    if |msgs| == 0 {
      assert s.outbox + RoundSends(s, msgs) == s.outbox;
    } else {
      RequestToCursor(s, msgs[0]);
      var t := Request(s, msgs[0]);
      var rest := msgs[1..];
      forall j | 0 <= j < |rest| ensures IsFree(t, Slot(t, j)) {
        StillFreeAfterFirst(s, t, j);
      }
      RoundRobinFrom(t, rest);
      var r := RequestAll(t, rest);
      RoundStepCombine(s, t, msgs, r);
      assert RequestAll(s, msgs) == r;
    }
  }

  /** The sends and the cursor of a round, from its first request and the rest of it. */
  lemma RoundStepCombine(s: MasterState, t: MasterState, msgs: seq<NetworkMessage>, r: MasterState)
    requires CursorOk(s) && 0 < |s.slaves| && t.slaves == s.slaves && t.cursor == Slot(s, 1)
    requires 0 < |msgs| <= |s.slaves|
    requires t.outbox == s.outbox + [ToSlot(s, msgs[0], s.cursor)]
    requires r.outbox == t.outbox + RoundSends(t, msgs[1..]) && r.cursor == Slot(t, |msgs| - 1)
    ensures r.outbox == s.outbox + RoundSends(s, msgs) && r.cursor == Slot(s, |msgs|)
  {
    RoundSendsStep(s, t, msgs);
    SlotShift(s, t, |msgs| - 1);
    assert r.outbox == s.outbox + ([ToSlot(s, msgs[0], s.cursor)] + RoundSends(t, msgs[1..]));
  }

  /** In a full round request j goes to the slave j steps past the cursor, no slave is
      met twice and every slave is met. */
  lemma RoundSendsCoverEachSlaveOnce(s: MasterState, msgs: seq<NetworkMessage>, sent: seq<Outgoing>)
    requires Valid(s) && 0 < |s.slaves| && |msgs| == |s.slaves| && sent == RoundSends(s, msgs)
    ensures var n := |s.slaves|;
      && (forall j :: 0 <= j < n ==>
            && Dest(sent[j]) == KeyOf(s.slaves[(s.cursor + j) % n])
            && sent[j].message == NetworkMessage(ImageRequest, msgs[j].data, "", 0))
      && (forall j1, j2 :: 0 <= j1 < j2 < n ==> Dest(sent[j1]) != Dest(sent[j2]))
      && (forall i :: 0 <= i < n ==> exists j :: 0 <= j < n && Dest(sent[j]) == KeyOf(s.slaves[i]))
  {
    var n := |s.slaves|;
    forall j | 0 <= j < n
      ensures Dest(sent[j]) == KeyOf(s.slaves[(s.cursor + j) % n])
      ensures sent[j].message == NetworkMessage(ImageRequest, msgs[j].data, "", 0)
    {
      assert sent[j] == ToSlot(s, msgs[j], Slot(s, j));
    }
    forall j1, j2 | 0 <= j1 < j2 < n ensures Dest(sent[j1]) != Dest(sent[j2]) {
      SlotsDistinct(s, j1, j2);
      KeysDistinct(s, Slot(s, j1), Slot(s, j2));
    }
    forall i | 0 <= i < n ensures exists j :: 0 <= j < n && Dest(sent[j]) == KeyOf(s.slaves[i]) {
      SlotCovers(s, i);
      var j :| 0 <= j < n && Slot(s, j) == i;
      assert Dest(sent[j]) == KeyOf(s.slaves[i]);
    }
  }

  /** Round-robin fairness: when all n registered slaves are free, n consecutive requests
      go one to each slave, in registry order starting at the cursor, no slave is sent
      two of them, and the cursor ends where it started. */
  lemma RoundRobinIsFair(s: MasterState, msgs: seq<NetworkMessage>)
    requires Valid(s) && |msgs| == |s.slaves|
    requires forall j :: 0 <= j < |msgs| ==> msgs[j].data.PacketJson?
    requires forall i :: 0 <= i < |s.slaves| ==> IsFree(s, i)
    ensures var r := RequestAll(s, msgs); var n := |s.slaves|;
      && |r.outbox| == |s.outbox| + n && r.outbox[..|s.outbox|] == s.outbox
      && r.cursor == s.cursor && r.queue == s.queue
      && var sent := r.outbox[|s.outbox|..];
      && (forall j :: 0 <= j < n ==>
            && Dest(sent[j]) == KeyOf(s.slaves[(s.cursor + j) % n])
            && sent[j].message == NetworkMessage(ImageRequest, msgs[j].data, "", 0))
      && (forall j1, j2 :: 0 <= j1 < j2 < n ==> Dest(sent[j1]) != Dest(sent[j2]))
      && (forall i :: 0 <= i < n ==> exists j :: 0 <= j < n && Dest(sent[j]) == KeyOf(s.slaves[i]))
  {
    var n := |s.slaves|;
    if n == 0 {
      assert RequestAll(s, msgs) == s;
    } else {
      RoundRobinFrom(s, msgs);
      SlotValue(s, n);
      var r := RequestAll(s, msgs);
      assert r.outbox[|s.outbox|..] == RoundSends(s, msgs);
      assert r.outbox[..|s.outbox|] == s.outbox;
      RoundSendsCoverEachSlaveOnce(s, msgs, r.outbox[|s.outbox|..]);
    }
  }

  // ---------------------------------------------------------------- HandleImageResponse

  /** The slave is found by the sender's address and the packet's SlavePort (the UDP
      source port plays no part) and freed only if known; a pending packet id is forwarded
      verbatim to its recorded client and forgotten; an unknown id forwards nothing. */
  lemma ReleaseAndForwardEffects(s: MasterState, msg: NetworkMessage, p: ImagePacket, otherPort: int)
    ensures var r := ReleaseAndForward(s, msg, p); var k := SlaveKey(msg.senderIp, p.slavePort);
      && r == ReleaseAndForward(s, msg.(senderPort := otherPort), p)
      && (k in s.busy ==> r.busy == s.busy[k := false])
      && (k !in s.busy ==> r.busy == s.busy)
      && r.completed == s.completed + 1
      && (p.packetId in s.pending ==>
            && r.outbox == s.outbox + [Outgoing(NetworkMessage(ImageResponse, msg.data, "", 0),
                                                s.pending[p.packetId].clientIp,
                                                s.pending[p.packetId].clientPort)]
            && r.pending == s.pending - {p.packetId})
      && (p.packetId !in s.pending ==> r.outbox == s.outbox && r.pending == s.pending)
      && r.slaves == s.slaves && r.queue == s.queue && r.taskCount == s.taskCount
  {
  }

  /** A second response for the same packet id forwards nothing to any client. */
  lemma DuplicateResponseForwardsNothing(s: MasterState, msg: NetworkMessage, again: NetworkMessage)
    requires Valid(s) && msg.data.PacketJson? && again.data.PacketJson?
    requires again.data.packet.packetId == msg.data.packet.packetId
    ensures var t := Response(s, msg);
      var u := ReleaseAndForward(t, again, again.data.packet);
      u.outbox == t.outbox && u.pending == t.pending && msg.data.packet.packetId !in t.pending
  {
  }

  /** Correlation: a request followed by the response for its packet id makes the master
      send that response, verbatim, to the exact address the request came from, before any
      task the following drain dispatches, and forget the id. */
  lemma RequestThenResponseReachesClient(s: MasterState, req: NetworkMessage, resp: NetworkMessage)
    requires Valid(s) && |s.slaves| > 0
    requires req.data.PacketJson? && resp.data.PacketJson?
    requires resp.data.packet.packetId == req.data.packet.packetId
    ensures var s1 := Request(s, req); var s2 := Response(s1, resp);
      && |s2.outbox| > |s1.outbox|
      && s2.outbox[|s1.outbox|] == Outgoing(NetworkMessage(ImageResponse, resp.data, "", 0),
                                            req.senderIp, req.senderPort)
      && req.data.packet.packetId !in s2.pending
  {
    RequestAssignsOrQueues(s, req);
    var s1 := Request(s, req);
    var id := req.data.packet.packetId;
    assert id in s1.pending && s1.pending[id] == ClientRequestInfo(req.senderIp, req.senderPort, req.data.packet.fileName);
    var mid := ReleaseAndForward(s1, resp, resp.data.packet);
    assert mid.outbox == s1.outbox + [Outgoing(NetworkMessage(ImageResponse, resp.data, "", 0),
                                               req.senderIp, req.senderPort)];
    assert id !in mid.pending;
    var s2 := Drain(mid);
    assert Response(s1, resp) == s2;
    assert s2.outbox[|s1.outbox|] == s2.outbox[..|mid.outbox|][|s1.outbox|];
  }

  // ---------------------------------------------------------------- OnMessageReceived

  /** Every inbound message keeps the master's invariant. */
  lemma StepPreservesValid(s: MasterState, msg: NetworkMessage, slaveId: string)
    requires Valid(s)
    ensures Valid(Step(s, msg, slaveId))
  {
    match msg.msgType {
      case SlaveRegister =>
        if msg.data.RegistrationJson? {
          var reg := msg.data.registration;
          if !Registered(s, reg.ipAddress, reg.port) {
            RegisterNewSlave(s, msg, slaveId);
          }
        }
      case ImageRequest =>
        RequestPreservesValid(s, msg);
      case ImageResponse =>
        if msg.data.PacketJson? {
          ReleasePreservesValid(s, msg, msg.data.packet);
          DrainPreservesValid(ReleaseAndForward(s, msg, msg.data.packet));
        }
      case Acknowledgment =>
    }
  }
}
