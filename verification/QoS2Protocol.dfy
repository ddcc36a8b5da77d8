/**
 Sender and receiver of the QoS 2 handshake joined by a network that may lose its connection
 at any time (sections 4.3.3 and 4.4 of MQTT 5.0), on top of the handlers of module `QoS2`.

 The handlers only list actions, so the way a session performs them is part of this model:
 Track and Remove act on sets of identifiers; SendPubRel also drops the stored publish, as
 `complete_pubrec` does; a disconnect empties the network and keeps both sessions; a
 reconnect replays, in any order, every stored publish and the PUBREL of every other tracked
 identifier. That a PUBREL is held back while its publish is stored is an assumption; module
 `QoS2Client` shows that these handlers need it, and how the client does without. Packets in
 flight may be received in any order, which includes the FIFO order of a stream.
 */
module QoS2Protocol {
  import opened Options
  import opened PacketIds
  import opened QoS2

  // Messages are numbered in the order in which they are published.
  type Message = nat

  datatype Packet =
    | Publish(id: PacketId, msg: Message)
    | PubRec(id: PacketId, code: ReasonCode)
    | PubRel(id: PacketId)
    | PubComp(id: PacketId, code: ReasonCode)

  // The end of a flow, as reported by CompleteFlow or ErrorFlow.
  datatype Ending = Ending(msg: Message, code: ReasonCode)

  // store, pubrels and nextId are the sender's session, tracked the receiver's. The last four
  // fields are history: the identifier given to each message, the message that last used an
  // identifier, the messages delivered and the flows ended.
  datatype System = System(
    connected: bool,
    store: map<PacketId, Message>,
    pubrels: set<PacketId>,
    nextId: PacketId,
    tracked: set<PacketId>,
    net: seq<Packet>,
    ids: seq<PacketId>,
    owner: map<PacketId, Message>,
    delivered: seq<Message>,
    ended: seq<Ending>)

  datatype Event =
    | PublishNew(elsewhere: set<PacketId>)
    | Receive(k: nat)
    | Disconnect
    | Reconnect(replay: seq<Packet>)

  const INIT := System(false, map[], {}, 1, {}, [], [], map[], [], [])

  function End(s: System, id: PacketId, code: ReasonCode): System {
    if id in s.owner then s.(ended := s.ended + [Ending(s.owner[id], code)]) else s
  }

  // Performs one action; msg is the message of the packet being handled.
  function Perform(s: System, a: Action, msg: Message): System {
    match a
    case SendPubRec(id, code) => s.(net := s.net + [PubRec(id, code)])
    case SendPubRel(id) => s.(store := s.store - {id}, net := s.net + [PubRel(id)])
    case SendPubComp(id, code) => s.(net := s.net + [PubComp(id, code)])
    case TrackOutgoingPubRec(id) => s
    case TrackOutgoingPubRel(id) => s.(pubrels := s.pubrels + {id})
    case RemoveOutgoingPubRel(id) => s.(pubrels := s.pubrels - {id})
    case TrackIncomingPubRec(id) => s.(tracked := s.tracked + {id})
    case RemoveIncomingPubRec(id) => s.(tracked := s.tracked - {id})
    case DeliverMessage(id) => s.(delivered := s.delivered + [msg])
    case CompleteFlow(id) => End(s, id, SUCCESS)
    case ErrorFlow(id, code) => End(s, id, code)
  }

  function PerformAll(s: System, actions: seq<Action>, msg: Message): System
    decreases |actions|
  {
    if actions == [] then s else PerformAll(Perform(s, actions[0], msg), actions[1..], msg)
  }

  // The identifier the allocator finds for the next publish; `elsewhere` are those in use for
  // anything but QoS 2 publishes.
  function Allocate(s: System, elsewhere: set<PacketId>): Option<nat> {
    FirstFree(s.nextId, (id: PacketId) => id in s.store || id in s.pubrels || id in elsewhere, 0)
  }

  predicate IsReplay(s: System, replay: seq<Packet>) {
    && (forall j, k :: 0 <= j < k < |replay| ==> replay[j].id != replay[k].id)
    && (forall k :: 0 <= k < |replay| ==>
                      match replay[k]
                      case Publish(id, msg) => id in s.store && s.store[id] == msg
                      case PubRel(id) => id in s.pubrels && id !in s.store
                      case _ => false)
    && (forall id :: id in s.store ==> InFlight(replay, id))
    && (forall id :: id in s.pubrels ==> InFlight(replay, id))
  }

  predicate InFlight(net: seq<Packet>, id: PacketId) {
    exists k :: 0 <= k < |net| && net[k].id == id
  }

  predicate Enabled(s: System, e: Event) {
    match e
    case PublishNew(elsewhere) => Allocate(s, elsewhere).Some?
    case Receive(k) => s.connected && k < |s.net|
    case Disconnect => s.connected
    case Reconnect(replay) => !s.connected && IsReplay(s, replay)
  }

  function Next(s: System, e: Event): System
    requires Enabled(s, e)
  {
    match e
    case PublishNew(elsewhere) =>
      var n := Allocate(s, elsewhere).value;
      var id, msg := Cycle(s.nextId, n), |s.ids|;
      var stored := s.(store := s.store[id := msg],
                    nextId := Cycle(s.nextId, n + 1),
                    net := if s.connected then s.net + [Publish(id, msg)] else s.net,
                    ids := s.ids + [id],
                    owner := s.owner[id := msg]);
      PerformAll(stored, HandleOutgoingPublish(id), msg)
    case Receive(k) =>
      Handle(s.(net := s.net[..k] + s.net[k + 1..]), s.net[k])
    case Disconnect => s.(connected := false, net := [])
    case Reconnect(replay) => s.(connected := true, net := replay)
  }

  function Handle(s: System, p: Packet): System {
    match p
    case Publish(id, msg) => PerformAll(s, HandleIncomingPublish(id, id in s.tracked), msg)
    case PubRec(id, code) => PerformAll(s, HandleIncomingPubRec(id, code, id in s.store), 0)
    case PubRel(id) => PerformAll(s, HandleIncomingPubRel(id, id in s.tracked), 0)
    case PubComp(id, code) => PerformAll(s, HandleIncomingPubComp(id, code, id in s.pubrels), 0)
  }

  predicate Run(s: System, es: seq<Event>)
    decreases |es|
  {
    es == [] || (Enabled(s, es[0]) && Run(Next(s, es[0]), es[1..]))
  }

  function Final(s: System, es: seq<Event>): System
    requires Run(s, es)
    decreases |es|
  {
    if es == [] then s else Final(Next(s, es[0]), es[1..])
  }

  // ---- the invariant ----

  predicate HasEnded(ended: seq<Ending>, m: Message) {
    exists k :: 0 <= k < |ended| && ended[k].msg == m
  }

  // Every message is either ended or the current owner of an identifier under way.
  ghost predicate FlowsOk(s: System) {
    && s.store.Keys <= s.pubrels <= s.owner.Keys
    && (forall i :: i in s.owner ==> s.owner[i] < |s.ids| && s.ids[s.owner[i]] == i)
    && (forall i :: i in s.store ==> s.store[i] == s.owner[i])
    && (forall i :: i in s.pubrels ==> !HasEnded(s.ended, s.owner[i]))
    && (forall m :: 0 <= m < |s.ids| && !HasEnded(s.ended, m) ==>
                      s.ids[m] in s.pubrels && s.owner[s.ids[m]] == m)
  }

  // A message is delivered at most once; whether the one that owns an identifier has been is
  // told by the publish store and the tracked set.
  ghost predicate DeliveryOk(s: System)
    requires FlowsOk(s)
  {
    && s.tracked <= s.pubrels
    && (forall j, k :: 0 <= j < k < |s.delivered| ==> s.delivered[j] != s.delivered[k])
    && (forall k :: 0 <= k < |s.delivered| ==> s.delivered[k] < |s.ids|)
    && (forall i :: i in s.pubrels && (i in s.tracked || i !in s.store) ==> s.owner[i] in s.delivered)
    && (forall i :: i in s.store && i !in s.tracked ==> s.owner[i] !in s.delivered)
    && EndingsOk(s)
  }

  // Each flow ends once, with its message delivered.
  ghost predicate EndingsOk(s: System) {
    && (forall j, k :: 0 <= j < k < |s.ended| ==> s.ended[j].msg != s.ended[k].msg)
    && (forall k :: 0 <= k < |s.ended| ==> s.ended[k].msg in s.delivered && s.ended[k].msg < |s.ids|)
    && (forall k :: 0 <= k < |s.ended| ==> FinalCode(s.ended[k].code))
  }

  predicate FinalCode(code: ReasonCode) {
    code == 0x00 || code == 0x92
  }

  ghost predicate PacketOk(s: System, p: Packet)
    requires FlowsOk(s)
  {
    match p
    case Publish(id, msg) => id in s.store && msg == s.store[id]
    case PubRec(id, code) => id in s.store && id in s.tracked && code == SUCCESS
    case PubRel(id) => id in s.pubrels && id !in s.store
    case PubComp(id, code) => id in s.pubrels && id !in s.store && id !in s.tracked && FinalCode(code)
  }

  // At most one packet in flight per identifier, and one for each while connected.
  ghost predicate NetOk(s: System)
    requires FlowsOk(s)
  {
    && (!s.connected ==> s.net == [])
    && (forall j, k :: 0 <= j < k < |s.net| ==> s.net[j].id != s.net[k].id)
    && (forall k :: 0 <= k < |s.net| ==> PacketOk(s, s.net[k]))
    && (s.connected ==> forall i :: i in s.pubrels ==> InFlight(s.net, i))
  }

  ghost predicate Inv(s: System) {
    FlowsOk(s) && DeliveryOk(s) && NetOk(s)
  }

  // ---- every step keeps it ----

  // The effect of each handler on a state that satisfies the invariant, as one update.
  lemma PerformOne(s: System, a: Action, msg: Message)
    ensures PerformAll(s, [a], msg) == Perform(s, a, msg)
  {
    assert [a][1..] == [];
    assert PerformAll(Perform(s, a, msg), [], msg) == Perform(s, a, msg);
  }

  lemma PerformTwo(s: System, a: Action, b: Action, msg: Message)
    ensures PerformAll(s, [a, b], msg) == Perform(Perform(s, a, msg), b, msg)
  {
    assert [a, b][1..] == [b];
    PerformOne(Perform(s, a, msg), b, msg);
  }

  lemma PerformThree(s: System, a: Action, b: Action, c: Action, msg: Message)
    ensures PerformAll(s, [a, b, c], msg) == Perform(Perform(Perform(s, a, msg), b, msg), c, msg)
  {
    assert [a, b, c][1..] == [b, c];
    PerformTwo(Perform(s, a, msg), b, c, msg);
  }

  function Without(net: seq<Packet>, k: nat): seq<Packet>
    requires k < |net|
  {
    net[..k] + net[k + 1..]
  }

  // Replacing the packet received by its answer keeps identifiers distinct and in flight.
  lemma Replace(net: seq<Packet>, k: nat, p: Packet)
    requires k < |net| && p.id == net[k].id
    requires forall i, j :: 0 <= i < j < |net| ==> net[i].id != net[j].id
    ensures var net' := Without(net, k) + [p];
            && (forall i, j :: 0 <= i < j < |net'| ==> net'[i].id != net'[j].id)
            && (forall q :: q in net' ==> q == p || (q in net && q.id != p.id))
            && (forall id :: InFlight(net, id) ==> InFlight(net', id))
  {
    var net' := Without(net, k) + [p];
    forall id | InFlight(net, id) ensures InFlight(net', id) {
      var j :| 0 <= j < |net| && net[j].id == id;
      var j' := if j < k then j else if j == k then |net| - 1 else j - 1;
      assert net'[j'].id == id;
    }
  }

  lemma Drop(net: seq<Packet>, k: nat)
    requires k < |net|
    requires forall i, j :: 0 <= i < j < |net| ==> net[i].id != net[j].id
    ensures var net' := Without(net, k);
            && (forall i, j :: 0 <= i < j < |net'| ==> net'[i].id != net'[j].id)
            && (forall q :: q in net' ==> q in net && q.id != net[k].id)
            && (forall id :: InFlight(net, id) && id != net[k].id ==> InFlight(net', id))
  {
    var net' := Without(net, k);
    forall id | InFlight(net, id) && id != net[k].id ensures InFlight(net', id) {
      var j :| 0 <= j < |net| && net[j].id == id;
      assert net'[if j < k then j else j - 1].id == id;
    }
  }

  // What receiving each kind of packet does, as one update of the state.

  lemma PublishEffect(s: System, k: nat)
    requires Enabled(s, Receive(k)) && s.net[k].Publish?
    ensures
      var Publish(id, msg) := s.net[k];
      var net' := Without(s.net, k) + [PubRec(id, SUCCESS)];
      Next(s, Receive(k)) ==
      if id in s.tracked then s.(net := net')
      else s.(delivered := s.delivered + [msg], net := net', tracked := s.tracked + {id})
  {
    var Publish(id, msg) := s.net[k];
    var s1 := s.(net := Without(s.net, k));
    if id in s.tracked {
      PerformOne(s1, SendPubRec(id, SUCCESS), msg);
    } else {
      PerformThree(s1, DeliverMessage(id), SendPubRec(id, SUCCESS), TrackIncomingPubRec(id), msg);
    }
  }

  lemma PubRecEffect(s: System, k: nat)
    requires Enabled(s, Receive(k)) && s.net[k].PubRec?
    requires s.net[k].id in s.store && s.net[k].id in s.pubrels && s.net[k].code == SUCCESS
    ensures
      var id := s.net[k].id;
      Next(s, Receive(k)) == s.(store := s.store - {id}, net := Without(s.net, k) + [PubRel(id)])
  {
    var id := s.net[k].id;
    PerformTwo(s.(net := Without(s.net, k)), SendPubRel(id), TrackOutgoingPubRel(id), 0);
    assert s.pubrels + {id} == s.pubrels;
  }

  function PubRelAnswer(s: System, id: PacketId): Packet {
    PubComp(id, if id in s.tracked then SUCCESS else PACKET_IDENTIFIER_NOT_FOUND)
  }

  lemma PubRelEffect(s: System, k: nat)
    requires Enabled(s, Receive(k)) && s.net[k].PubRel?
    ensures
      var id := s.net[k].id;
      Next(s, Receive(k)) ==
      s.(tracked := s.tracked - {id}, net := Without(s.net, k) + [PubRelAnswer(s, id)])
  {
    var id := s.net[k].id;
    var s1 := s.(net := Without(s.net, k));
    if id in s.tracked {
      PerformTwo(s1, RemoveIncomingPubRec(id), SendPubComp(id, SUCCESS), 0);
    } else {
      PerformOne(s1, SendPubComp(id, PACKET_IDENTIFIER_NOT_FOUND), 0);
      assert s.tracked - {id} == s.tracked;
    }
  }

  lemma PubCompEffect(s: System, k: nat)
    requires Enabled(s, Receive(k)) && s.net[k].PubComp?
    requires s.net[k].id in s.pubrels && s.net[k].id in s.owner
    ensures
      var PubComp(id, code) := s.net[k];
      Next(s, Receive(k)) ==
      s.(pubrels := s.pubrels - {id}, net := Without(s.net, k),
      ended := s.ended + [Ending(s.owner[id], code)])
  {
    var PubComp(id, code) := s.net[k];
    var last := if code == SUCCESS then CompleteFlow(id) else ErrorFlow(id, code);
    PerformTwo(s.(net := Without(s.net, k)), RemoveOutgoingPubRel(id), last, 0);
  }

  lemma PublishNewEffect(s: System, elsewhere: set<PacketId>)
    requires Enabled(s, PublishNew(elsewhere))
    ensures
      var n := Allocate(s, elsewhere).value;
      var id, msg := Cycle(s.nextId, n), |s.ids|;
      && id !in s.store && id !in s.pubrels && id !in elsewhere
      && Next(s, PublishNew(elsewhere)) ==
         s.(store := s.store[id := msg], pubrels := s.pubrels + {id}, nextId := Cycle(s.nextId, n + 1),
         net := if s.connected then s.net + [Publish(id, msg)] else s.net,
         ids := s.ids + [id], owner := s.owner[id := msg])
  {
    var n := Allocate(s, elsewhere).value;
    var id, msg := Cycle(s.nextId, n), |s.ids|;
    var stored := s.(store := s.store[id := msg], nextId := Cycle(s.nextId, n + 1),
    net := if s.connected then s.net + [Publish(id, msg)] else s.net,
    ids := s.ids + [id], owner := s.owner[id := msg]);
    PerformOne(stored, TrackOutgoingPubRel(id), msg);
  }

  // Each update keeps the invariant. A step concerns one identifier; the sessions agree on
  // all others, so the other packets in flight stay as they should be.

  ghost predicate AgreeOff(s: System, s': System, id: PacketId) {
    forall i :: i != id ==>
                  && (i in s.store <==> i in s'.store)
                  && (i in s.store ==> s.store[i] == s'.store[i])
                  && (i in s.pubrels <==> i in s'.pubrels)
                  && (i in s.tracked <==> i in s'.tracked)
  }

  lemma PacketKept(s: System, s': System, id: PacketId, q: Packet)
    requires FlowsOk(s) && FlowsOk(s') && AgreeOff(s, s', id) && q.id != id && PacketOk(s, q)
    ensures PacketOk(s', q)
  {
    assert q.id in s.store <==> q.id in s'.store;
  }

  lemma NetReplaced(s: System, k: nat, p: Packet, s': System)
    requires FlowsOk(s) && NetOk(s) && s.connected && k < |s.net| && p.id == s.net[k].id
    requires FlowsOk(s') && AgreeOff(s, s', p.id) && PacketOk(s', p)
    requires s'.connected && s'.net == Without(s.net, k) + [p]
    ensures NetOk(s')
  {
    Replace(s.net, k, p);
    forall j | 0 <= j < |s'.net| ensures PacketOk(s', s'.net[j]) {
      var q := s'.net[j];
      assert q in s'.net;
      if q != p {
        PacketKept(s, s', p.id, q);
      }
    }
    forall i | i in s'.pubrels ensures InFlight(s'.net, i) {
      if i == p.id {
        assert s'.net[|s'.net| - 1].id == i;
      } else {
        assert i in s.pubrels;
      }
    }
  }

  lemma NetDropped(s: System, k: nat, s': System)
    requires FlowsOk(s) && NetOk(s) && s.connected && k < |s.net|
    requires FlowsOk(s') && AgreeOff(s, s', s.net[k].id) && s.net[k].id !in s'.pubrels
    requires s'.connected && s'.net == Without(s.net, k)
    ensures NetOk(s')
  {
    Drop(s.net, k);
    forall j | 0 <= j < |s'.net| ensures PacketOk(s', s'.net[j]) {
      assert s'.net[j] in s'.net;
      PacketKept(s, s', s.net[k].id, s'.net[j]);
    }
    assert forall i :: i in s'.pubrels ==> i in s.pubrels;
  }

  lemma PacketTracked(s: System, q: Packet)
    requires FlowsOk(s) && PacketOk(s, q)
    ensures q.id in s.pubrels
  {
  }

  lemma NetExtended(s: System, p: Packet, s': System)
    requires FlowsOk(s) && NetOk(s) && p.id !in s.pubrels
    requires FlowsOk(s') && AgreeOff(s, s', p.id) && PacketOk(s', p)
    requires s'.connected == s.connected && s'.net == if s.connected then s.net + [p] else s.net
    ensures NetOk(s')
  {
    hide FlowsOk, PacketOk;
    forall j | 0 <= j < |s.net| ensures PacketOk(s', s.net[j]) && s.net[j].id != p.id {
      PacketTracked(s, s.net[j]);
      PacketKept(s, s', p.id, s.net[j]);
    }
    forall i | s'.connected && i in s'.pubrels ensures InFlight(s'.net, i) {
      if i == p.id {
        assert s'.net[|s.net|].id == i;
      } else {
        assert InFlight(s.net, i);
        var j :| 0 <= j < |s.net| && s.net[j].id == i;
        assert s'.net[j].id == i;
      }
    }
  }

  // What the invariant says of a packet in flight.
  lemma InFlightOk(s: System, k: nat)
    requires Inv(s) && k < |s.net|
    ensures PacketOk(s, s.net[k]) && s.net[k].id in s.pubrels && s.net[k].id in s.owner
  {
    assert PacketOk(s, s.net[k]);
  }

  lemma FlowsUntouched(s: System, s': System)
    requires FlowsOk(s)
    requires s' == s.(connected := s'.connected, net := s'.net, tracked := s'.tracked, delivered := s'.delivered)
    ensures FlowsOk(s')
  {
  }

  lemma OnlyNetChanged(s: System, s': System)
    requires FlowsOk(s) && DeliveryOk(s) && s' == s.(connected := s'.connected, net := s'.net)
    ensures FlowsOk(s') && DeliveryOk(s')
  {
  }

  lemma EndingsKept(s: System, s': System)
    requires EndingsOk(s) && s'.ended == s.ended && s.ids <= s'.ids && s.delivered <= s'.delivered
    ensures EndingsOk(s')
  {
  }

  lemma EndingsGrow(s: System, e: Ending, s': System)
    requires EndingsOk(s) && s'.ended == s.ended + [e] && s'.ids == s.ids && s'.delivered == s.delivered
    requires !HasEnded(s.ended, e.msg) && e.msg in s.delivered && e.msg < |s.ids| && FinalCode(e.code)
    ensures EndingsOk(s')
  {
  }

  // Receiving a PUBLISH: the message is delivered unless its identifier is tracked.
  lemma DeliveryByPublish(s: System, id: PacketId, s': System)
    requires FlowsOk(s) && DeliveryOk(s) && id in s.store
    requires s' == s.(delivered := s.delivered + [s.store[id]], net := s'.net, tracked := s.tracked + {id})
    requires id !in s.tracked
    ensures FlowsOk(s') && DeliveryOk(s')
  {
    hide EndingsOk, FlowsOk;
    FlowsUntouched(s, s');
    EndingsKept(s, s');
    StoredByOwner(s, id);
    forall i | i in s.store && i != id ensures s.owner[i] != s.store[id] {
      StoredByOwner(s, i);
    }
    TrackedByOwner(s);
  }

  lemma StoredByOwner(s: System, id: PacketId)
    requires FlowsOk(s) && id in s.store
    ensures id in s.pubrels && id in s.owner && s.store[id] == s.owner[id] < |s.ids| && s.ids[s.owner[id]] == id
  {
  }

  lemma TrackedByOwner(s: System)
    requires FlowsOk(s)
    ensures s.store.Keys <= s.pubrels <= s.owner.Keys
  {
  }

  lemma KeptByPublish(s: System, k: nat, s': System)
    requires Inv(s) && s.connected && k < |s.net| && s.net[k].Publish?
    requires
      var Publish(id, msg) := s.net[k];
      var net' := Without(s.net, k) + [PubRec(id, SUCCESS)];
      s' == if id in s.tracked then s.(net := net')
      else s.(delivered := s.delivered + [msg], net := net', tracked := s.tracked + {id})
    ensures Inv(s')
  {
    hide FlowsOk, DeliveryOk, NetOk;
    var id := s.net[k].id;
    InFlightOk(s, k);
    if id in s.tracked {
      OnlyNetChanged(s, s');
    } else {
      DeliveryByPublish(s, id, s');
    }
    NetReplaced(s, k, PubRec(id, SUCCESS), s');
  }

  // Receiving a PUBREC: the stored publish is dropped; its message is known to be delivered.
  lemma DeliveryByPubRec(s: System, id: PacketId, s': System)
    requires FlowsOk(s) && DeliveryOk(s) && id in s.store && id in s.tracked
    requires s' == s.(store := s.store - {id}, net := s'.net)
    ensures FlowsOk(s') && DeliveryOk(s')
  {
    hide EndingsOk;
    EndingsKept(s, s');
    assert FlowsOk(s');
  }

  lemma KeptByPubRec(s: System, k: nat, s': System)
    requires Inv(s) && s.connected && k < |s.net| && s.net[k].PubRec?
    requires
      var id := s.net[k].id;
      s' == s.(store := s.store - {id}, net := Without(s.net, k) + [PubRel(id)])
    ensures Inv(s')
  {
    hide FlowsOk, DeliveryOk, NetOk;
    InFlightOk(s, k);
    DeliveryByPubRec(s, s.net[k].id, s');
    NetReplaced(s, k, PubRel(s.net[k].id), s');
  }

  // Receiving a PUBREL: the identifier is no longer tracked.
  lemma DeliveryByPubRel(s: System, id: PacketId, s': System)
    requires FlowsOk(s) && DeliveryOk(s) && id in s.pubrels && id !in s.store
    requires s' == s.(tracked := s.tracked - {id}, net := s'.net)
    ensures FlowsOk(s') && DeliveryOk(s')
  {
    hide EndingsOk;
    FlowsUntouched(s, s');
    EndingsKept(s, s');
  }

  lemma KeptByPubRel(s: System, k: nat, s': System)
    requires Inv(s) && s.connected && k < |s.net| && s.net[k].PubRel?
    requires
      var id := s.net[k].id;
      s' == s.(tracked := s.tracked - {id}, net := Without(s.net, k) + [PubRelAnswer(s, id)])
    ensures Inv(s')
  {
    hide FlowsOk, DeliveryOk, NetOk;
    InFlightOk(s, k);
    DeliveryByPubRel(s, s.net[k].id, s');
    NetReplaced(s, k, PubRelAnswer(s, s.net[k].id), s');
  }

  lemma EndedGrows(ended: seq<Ending>, e: Ending)
    ensures forall m :: HasEnded(ended + [e], m) <==> HasEnded(ended, m) || m == e.msg
  {
    forall m ensures HasEnded(ended + [e], m) <==> HasEnded(ended, m) || m == e.msg {
      if HasEnded(ended, m) {
        var j :| 0 <= j < |ended| && ended[j].msg == m;
        assert (ended + [e])[j].msg == m;
      }
      assert (ended + [e])[|ended|].msg == e.msg;
    }
  }

  // Receiving a PUBCOMP: the flow ends; its message is known to be delivered.
  lemma FlowsByPubComp(s: System, id: PacketId, code: ReasonCode, s': System)
    requires FlowsOk(s) && id in s.pubrels && id !in s.store
    requires s' == s.(pubrels := s.pubrels - {id}, net := s'.net, ended := s.ended + [Ending(s.owner[id], code)])
    ensures FlowsOk(s')
  {
    EndedGrows(s.ended, Ending(s.owner[id], code));
    forall i | i in s'.pubrels ensures s'.owner[i] != s.owner[id] {
      assert s.ids[s.owner[i]] == i && s.ids[s.owner[id]] == id;
    }
  }

  lemma DeliveryByPubComp(s: System, id: PacketId, code: ReasonCode, s': System)
    requires FlowsOk(s) && DeliveryOk(s) && id in s.pubrels && id !in s.store && id !in s.tracked
    requires FinalCode(code) && FlowsOk(s')
    requires s' == s.(pubrels := s.pubrels - {id}, net := s'.net, ended := s.ended + [Ending(s.owner[id], code)])
    ensures DeliveryOk(s')
  {
    hide EndingsOk;
    assert !HasEnded(s.ended, s.owner[id]);
    EndingsGrow(s, Ending(s.owner[id], code), s');
  }

  lemma KeptByPubComp(s: System, k: nat, s': System)
    requires Inv(s) && s.connected && k < |s.net| && s.net[k].PubComp? && s.net[k].id in s.owner
    requires
      var PubComp(id, code) := s.net[k];
      s' == s.(pubrels := s.pubrels - {id}, net := Without(s.net, k),
      ended := s.ended + [Ending(s.owner[id], code)])
    ensures Inv(s')
  {
    hide FlowsOk, DeliveryOk, NetOk;
    var id, code := s.net[k].id, s.net[k].code;
    InFlightOk(s, k);
    FlowsByPubComp(s, id, code, s');
    DeliveryByPubComp(s, id, code, s');
    NetDropped(s, k, s');
  }

  // Publishing: the new message takes an identifier that is not under way.
  lemma FlowsByPublishNew(s: System, id: PacketId, s': System)
    requires FlowsOk(s) && id !in s.pubrels
    requires
      s' == s.(store := s.store[id := |s.ids|], pubrels := s.pubrels + {id}, nextId := s'.nextId,
      net := s'.net, ids := s.ids + [id], owner := s.owner[id := |s.ids|])
    requires !HasEnded(s.ended, |s.ids|)
    ensures FlowsOk(s')
  {
  }

  lemma DeliveryByPublishNew(s: System, id: PacketId, s': System)
    requires FlowsOk(s) && DeliveryOk(s) && id !in s.pubrels && FlowsOk(s')
    requires
      s' == s.(store := s.store[id := |s.ids|], pubrels := s.pubrels + {id}, nextId := s'.nextId,
      net := s'.net, ids := s.ids + [id], owner := s.owner[id := |s.ids|])
    ensures DeliveryOk(s')
  {
    hide EndingsOk;
    EndingsKept(s, s');
  }

  lemma NewMessageIsFresh(s: System)
    requires FlowsOk(s) && DeliveryOk(s)
    ensures !HasEnded(s.ended, |s.ids|)
  {
  }

  lemma KeptByPublishNew(s: System, id: PacketId, msg: Message, nextId: PacketId, s': System)
    requires Inv(s) && id !in s.store && id !in s.pubrels && msg == |s.ids|
    requires
      s' == s.(store := s.store[id := msg], pubrels := s.pubrels + {id}, nextId := nextId,
      net := if s.connected then s.net + [Publish(id, msg)] else s.net,
      ids := s.ids + [id], owner := s.owner[id := msg])
    ensures Inv(s')
  {
    hide FlowsOk, DeliveryOk, NetOk;
    NewMessageIsFresh(s);
    FlowsByPublishNew(s, id, s');
    DeliveryByPublishNew(s, id, s');
    NetExtended(s, Publish(id, msg), s');
  }

  lemma ReceiptKeeps(s: System, k: nat)
    requires Inv(s) && Enabled(s, Receive(k))
    ensures Inv(Next(s, Receive(k)))
  {
    hide FlowsOk, DeliveryOk, NetOk;
    InFlightOk(s, k);
    var s' := Next(s, Receive(k));
    match s.net[k]
    case Publish(_, _) =>
      PublishEffect(s, k);
      KeptByPublish(s, k, s');
    case PubRec(_, _) =>
      PubRecEffect(s, k);
      KeptByPubRec(s, k, s');
    case PubRel(_) =>
      PubRelEffect(s, k);
      KeptByPubRel(s, k, s');
    case PubComp(_, _) =>
      PubCompEffect(s, k);
      KeptByPubComp(s, k, s');
  }

  lemma StepKeeps(s: System, e: Event)
    requires Inv(s) && Enabled(s, e)
    ensures Inv(Next(s, e))
  {
    match e
    case PublishNew(elsewhere) =>
      PublishNewEffect(s, elsewhere);
      var n := Allocate(s, elsewhere).value;
      KeptByPublishNew(s, Cycle(s.nextId, n), |s.ids|, Cycle(s.nextId, n + 1), Next(s, e));
    case Receive(k) => ReceiptKeeps(s, k);
    case Disconnect => OnlyNetChanged(s, Next(s, e));
    case Reconnect(replay) => OnlyNetChanged(s, Next(s, e));
  }

  lemma InitOk()
    ensures Inv(INIT)
  {
  }

  lemma {:induction false} RunKeeps(s: System, es: seq<Event>)
    requires Inv(s) && Run(s, es)
    ensures Inv(Final(s, es))
    decreases |es|
  {
    if es != [] {
      StepKeeps(s, es[0]);
      RunKeeps(Next(s, es[0]), es[1..]);
    }
  }

  // ---- exactly once ----

  lemma {:induction false} DistinctCount(ms: seq<Message>, m: Message)
    requires forall j, k :: 0 <= j < k < |ms| ==> ms[j] != ms[k]
    ensures multiset(ms)[m] == if m in ms then 1 else 0
  {
    if ms != [] {
      var front := ms[..|ms| - 1];
      assert ms == front + [ms[|ms| - 1]];
      DistinctCount(front, m);
    }
  }

  // In every run, with any disconnects and replays and any reuse of identifiers: no message is
  // delivered twice, nothing is delivered that was not published, a message whose flow has
  // ended was delivered exactly once, and each flow ends at most once, with Success or with
  // PacketIdentifierNotFound.
  lemma ExactlyOnce(es: seq<Event>)
    requires Run(INIT, es)
    ensures
      var s := Final(INIT, es);
      && (forall m: Message :: multiset(s.delivered)[m] <= 1)
      && (forall m :: m in s.delivered ==> m < |s.ids|)
      && (forall e :: e in s.ended ==> multiset(s.delivered)[e.msg] == 1 && FinalCode(e.code))
      && (forall j, k :: 0 <= j < k < |s.ended| ==> s.ended[j].msg != s.ended[k].msg)
  {
    hide FlowsOk, DeliveryOk, NetOk, Run, Final;
    InitOk();
    RunKeeps(INIT, es);
    OnceIn(Final(INIT, es));
  }

  lemma OnceIn(s: System)
    requires FlowsOk(s) && DeliveryOk(s)
    ensures forall m: Message :: multiset(s.delivered)[m] <= 1
    ensures forall m :: m in s.delivered ==> m < |s.ids|
    ensures forall e :: e in s.ended ==> multiset(s.delivered)[e.msg] == 1 && FinalCode(e.code)
    ensures forall j, k :: 0 <= j < k < |s.ended| ==> s.ended[j].msg != s.ended[k].msg
  {
    hide FlowsOk;
    forall m: Message ensures multiset(s.delivered)[m] == if m in s.delivered then 1 else 0 {
      DistinctCount(s.delivered, m);
    }
  }

  // Two messages under way never share a packet identifier.
  lemma UnfinishedFlowsHaveDistinctIds(es: seq<Event>, m: Message, n: Message)
    requires Run(INIT, es)
    requires m < n < |Final(INIT, es).ids|
    requires !HasEnded(Final(INIT, es).ended, m) && !HasEnded(Final(INIT, es).ended, n)
    ensures Final(INIT, es).ids[m] != Final(INIT, es).ids[n]
  {
    RunKeeps(INIT, es);
    var s := Final(INIT, es);
    assert s.owner[s.ids[m]] == m && s.owner[s.ids[n]] == n;
  }

  // A publish is refused only while all 65535 identifiers are under way or in use elsewhere.
  lemma PublishBlockedIff(es: seq<Event>, elsewhere: set<PacketId>)
    requires Run(INIT, es)
    ensures !Enabled(Final(INIT, es), PublishNew(elsewhere))
       <==> forall id: PacketId :: id in Final(INIT, es).pubrels || id in elsewhere
  {
    hide FlowsOk, DeliveryOk, NetOk, Run, Final, Allocate;
    RunKeeps(INIT, es);
    AllocateNone(Final(INIT, es), elsewhere);
  }

  lemma AllocateNone(s: System, elsewhere: set<PacketId>)
    requires FlowsOk(s)
    ensures Allocate(s, elsewhere).None? <==> forall id: PacketId :: id in s.pubrels || id in elsewhere
  {
    var inUse := (id: PacketId) => id in s.store || id in s.pubrels || id in elsewhere;
    FirstFreeNone(s.nextId, inUse);
    assert forall id: PacketId :: inUse(id) <==> id in s.pubrels || id in elsewhere;
  }

  // ---- drain ----

  function PacketWeight(p: Packet): nat {
    match p
    case Publish(_, _) => 4
    case PubRec(_, _) => 3
    case PubRel(_) => 2
    case PubComp(_, _) => 1
  }

  function Weight(net: seq<Packet>): nat {
    if net == [] then 0 else PacketWeight(net[0]) + Weight(net[1..])
  }

  lemma {:induction false} WeightSplit(a: seq<Packet>, b: seq<Packet>)
    ensures Weight(a + b) == Weight(a) + Weight(b)
  {
    if a == [] {
      assert a + b == b;
    } else {
      WeightSplit(a[1..], b);
      assert (a + b)[1..] == a[1..] + b;
    }
  }

  lemma WeightOne(p: Packet)
    ensures Weight([p]) == PacketWeight(p)
  {
    assert [p][1..] == [];
    assert Weight([]) == 0;
  }

  lemma WeightWithout(net: seq<Packet>, k: nat)
    requires k < |net|
    ensures Weight(net) == Weight(Without(net, k)) + PacketWeight(net[k])
  {
    var a, p, b := net[..k], net[k], net[k + 1..];
    WeightSplit(a, b);
    WeightSplit(a, [p] + b);
    WeightSplit([p], b);
    WeightOne(p);
    assert net == a + ([p] + b);
  }

  lemma ReceiptLightens(s: System, k: nat)
    requires Inv(s) && Enabled(s, Receive(k))
    ensures Next(s, Receive(k)).connected
    ensures Weight(Next(s, Receive(k)).net) == Weight(s.net) - 1
    ensures Next(s, Receive(k)).ids == s.ids
  {
    hide FlowsOk, DeliveryOk, NetOk;
    InFlightOk(s, k);
    var p := s.net[k];
    WeightWithout(s.net, k);
    match p
    case Publish(id, _) =>
      PublishEffect(s, k);
      WeightAnswer(s, k, PubRec(id, SUCCESS));
    case PubRec(id, _) =>
      PubRecEffect(s, k);
      WeightAnswer(s, k, PubRel(id));
    case PubRel(id) =>
      PubRelEffect(s, k);
      WeightAnswer(s, k, PubRelAnswer(s, id));
    case PubComp(_, _) =>
      PubCompEffect(s, k);
  }

  lemma WeightAnswer(s: System, k: nat, p: Packet)
    requires k < |s.net|
    ensures Weight(Without(s.net, k) + [p]) == Weight(Without(s.net, k)) + PacketWeight(p)
  {
    WeightSplit(Without(s.net, k), [p]);
    WeightOne(p);
  }

  // Nothing in flight on a live connection: every message published was delivered exactly
  // once and both sessions are empty.
  predicate Quiet(s: System) {
    && (forall m :: 0 <= m < |s.ids| ==> multiset(s.delivered)[m] == 1)
    && s.store == map[] && s.pubrels == {} && s.tracked == {}
  }

  lemma SilenceIsQuiet(s: System)
    requires Inv(s) && s.connected && s.net == []
    ensures Quiet(s)
  {
    assert forall i :: i in s.pubrels ==> InFlight(s.net, i);
    assert s.pubrels == {};
    assert s.store == map[];
    forall m | 0 <= m < |s.ids| ensures multiset(s.delivered)[m] == 1 {
      DistinctCount(s.delivered, m);
      assert HasEnded(s.ended, m);
    }
  }

  predicate OnlyReceipts(es: seq<Event>) {
    forall k :: 0 <= k < |es| ==> es[k].Receive?
  }

  lemma {:induction false} ReceiptsLighten(s: System, es: seq<Event>)
    requires Inv(s) && s.connected && Run(s, es) && OnlyReceipts(es)
    ensures Inv(Final(s, es)) && Final(s, es).connected && Final(s, es).ids == s.ids
    ensures Weight(Final(s, es).net) == Weight(s.net) - |es|
    decreases |es|
  {
    if es != [] {
      StepKeeps(s, es[0]);
      ReceiptLightens(s, es[0].k);
      ReceiptsLighten(Next(s, es[0]), es[1..]);
    }
  }

  // On a live connection the unfinished flows have exactly one packet in flight each.
  lemma OnePacketPerFlow(es: seq<Event>)
    requires Run(INIT, es) && Final(INIT, es).connected
    ensures
      var s := Final(INIT, es);
      && (forall i :: i in s.pubrels <==> InFlight(s.net, i))
      && (forall j, k :: 0 <= j < k < |s.net| ==> s.net[j].id != s.net[k].id)
  {
    RunKeeps(INIT, es);
    var s := Final(INIT, es);
    forall i | InFlight(s.net, i) ensures i in s.pubrels {
      var k :| 0 <= k < |s.net| && s.net[k].id == i;
      assert PacketOk(s, s.net[k]);
    }
  }

  // Drain: from any reachable connected state, if the connection holds and nothing more is
  // published, receipts in any order go on exactly until Weight(net) of them are done, and
  // then every message was delivered exactly once and both sessions are empty.
  lemma Drain(before: seq<Event>, es: seq<Event>)
    requires Run(INIT, before) && Final(INIT, before).connected
    requires Run(Final(INIT, before), es) && OnlyReceipts(es)
    ensures
      var s := Final(INIT, before);
      var s' := Final(s, es);
      && |es| <= Weight(s.net)
      && (Enabled(s', Receive(0)) <==> |es| < Weight(s.net))
      && (|es| == Weight(s.net) ==> Quiet(s') && s'.ids == s.ids)
  {
    RunKeeps(INIT, before);
    DrainFrom(Final(INIT, before), es);
  }

  lemma DrainFrom(s: System, es: seq<Event>)
    requires Inv(s) && s.connected && Run(s, es) && OnlyReceipts(es)
    ensures |es| <= Weight(s.net)
    ensures Enabled(Final(s, es), Receive(0)) <==> |es| < Weight(s.net)
    ensures |es| == Weight(s.net) ==> Quiet(Final(s, es)) && Final(s, es).ids == s.ids
  {
    hide FlowsOk, DeliveryOk, NetOk, Run, Final, Quiet;
    ReceiptsLighten(s, es);
    var s' := Final(s, es);
    if s'.net == [] {
      SilenceIsQuiet(s');
    } else {
      assert Weight(s'.net) >= PacketWeight(s'.net[0]);
    }
  }

  // ---- nothing is ever stuck ----

  lemma {:induction false} Enumerate(ids: set<PacketId>) returns (xs: seq<PacketId>)
    ensures forall i :: i in ids <==> i in xs
    ensures forall j, k :: 0 <= j < k < |xs| ==> xs[j] != xs[k]
    decreases ids
  {
    if i :| i in ids {
      var rest := Enumerate(ids - {i});
      xs := [i] + rest;
    } else {
      xs := [];
    }
  }

  lemma ReplayExists(s: System) returns (replay: seq<Packet>)
    requires FlowsOk(s)
    ensures IsReplay(s, replay)
  {
    var xs := Enumerate(s.pubrels);
    replay := seq(|xs|, k requires 0 <= k < |xs| => if xs[k] in s.store then Publish(xs[k], s.store[xs[k]]) else PubRel(xs[k]));
    forall k | 0 <= k < |replay| ensures replay[k].id == xs[k] && xs[k] in s.pubrels {
      assert xs[k] in xs;
    }
    forall id | id in s.pubrels ensures InFlight(replay, id) {
      var k :| 0 <= k < |xs| && xs[k] == id;
      assert replay[k].id == id;
    }
  }

  lemma {:induction false} ReceiptsToQuiet(s: System) returns (es: seq<Event>)
    requires Inv(s) && s.connected
    ensures Run(s, es) && Quiet(Final(s, es)) && Final(s, es).ids == s.ids
    decreases Weight(s.net)
  {
    hide FlowsOk, DeliveryOk, NetOk, Quiet, Weight;
    if s.net == [] {
      SilenceIsQuiet(s);
      es := [];
    } else {
      var s' := Next(s, Receive(0));
      StepKeeps(s, Receive(0));
      ReceiptLightens(s, 0);
      var rest := ReceiptsToQuiet(s');
      es := [Receive(0)] + rest;
      assert es[1..] == rest;
    }
  }

  // From every reachable state, connected or not, the system can still finish: some
  // continuation delivers every message published so far and empties both sessions.
  lemma CanAlwaysFinish(before: seq<Event>) returns (es: seq<Event>)
    requires Run(INIT, before)
    ensures
      var s := Final(INIT, before);
      Run(s, es) && Quiet(Final(s, es)) && Final(s, es).ids == s.ids
  {
    hide FlowsOk, DeliveryOk, NetOk, Quiet, IsReplay;
    InitOk();
    RunKeeps(INIT, before);
    var s := Final(INIT, before);
    if s.connected {
      es := ReceiptsToQuiet(s);
    } else {
      var replay := ReplayExists(s);
      var s' := Next(s, Reconnect(replay));
      StepKeeps(s, Reconnect(replay));
      var rest := ReceiptsToQuiet(s');
      es := [Reconnect(replay)] + rest;
      assert es[1..] == rest;
    }
  }

  // ---- runs without a lost connection ----

  // While no connection has been lost, a PUBREL always meets an identifier still tracked.
  ghost predicate Lossless(s: System)
    requires FlowsOk(s)
  {
    && (!s.connected ==> s.pubrels <= s.store.Keys && s.tracked == {})
    && (forall k :: 0 <= k < |s.net| && s.net[k].PubRel? ==> s.net[k].id in s.tracked)
    && (forall k :: 0 <= k < |s.net| && s.net[k].PubComp? ==> s.net[k].code == SUCCESS)
    && (forall k :: 0 <= k < |s.ended| ==> s.ended[k].code == SUCCESS)
  }

  lemma LosslessReceive(s: System, k: nat, id: PacketId, s': System)
    requires Inv(s) && Lossless(s) && s.connected && k < |s.net| && id == s.net[k].id
    requires FlowsOk(s') && s'.connected && AgreeOff(s, s', id)
    requires forall e :: e in s'.ended ==> e in s.ended || e.code == SUCCESS
    requires forall q :: q in s'.net && q.id == id ==>
                           (q.PubRel? ==> id in s'.tracked) && (q.PubComp? ==> q.code == SUCCESS)
    requires forall q :: q in s'.net && q.id != id ==> q in s.net
    ensures Lossless(s')
  {
    forall j | 0 <= j < |s'.net|
      ensures (s'.net[j].PubRel? ==> s'.net[j].id in s'.tracked) && (s'.net[j].PubComp? ==> s'.net[j].code == SUCCESS)
    {
      assert s'.net[j] in s'.net;
    }
    forall j | 0 <= j < |s'.ended| ensures s'.ended[j].code == SUCCESS {
      assert s'.ended[j] in s'.ended;
    }
  }

  lemma LosslessAt(s: System, k: nat)
    requires Inv(s) && Lossless(s) && k < |s.net|
    ensures s.net[k].PubRel? ==> s.net[k].id in s.tracked
    ensures s.net[k].PubComp? ==> s.net[k].code == SUCCESS
  {
  }

  lemma LosslessPublishNew(s: System, id: PacketId, msg: Message, s': System)
    requires FlowsOk(s) && Lossless(s) && FlowsOk(s')
    requires
      s' == s.(store := s.store[id := msg], pubrels := s.pubrels + {id}, nextId := s'.nextId,
      net := if s.connected then s.net + [Publish(id, msg)] else s.net,
      ids := s.ids + [id], owner := s.owner[id := msg])
    ensures Lossless(s')
  {
  }

  lemma LosslessReconnect(s: System, replay: seq<Packet>)
    requires FlowsOk(s) && Lossless(s) && !s.connected && IsReplay(s, replay)
    requires FlowsOk(s.(connected := true, net := replay))
    ensures Lossless(s.(connected := true, net := replay))
  {
    forall k | 0 <= k < |replay| ensures replay[k].Publish? {
      var id := replay[k].id;
      assert id in s.pubrels ==> id in s.store.Keys;
    }
  }

  lemma LosslessStep(s: System, e: Event)
    requires Inv(s) && Lossless(s) && Enabled(s, e) && !e.Disconnect?
    ensures Inv(Next(s, e)) && Lossless(Next(s, e))
  {
    hide FlowsOk, DeliveryOk, NetOk, Lossless;
    StepKeeps(s, e);
    match e
    case PublishNew(elsewhere) =>
      PublishNewEffect(s, elsewhere);
      LosslessPublishNew(s, Cycle(s.nextId, Allocate(s, elsewhere).value), |s.ids|, Next(s, e));
    case Reconnect(replay) => LosslessReconnect(s, replay);
    case Receive(k) => LosslessReceipt(s, k);
  }

  lemma LosslessReceipt(s: System, k: nat)
    requires Inv(s) && Lossless(s) && Enabled(s, Receive(k)) && Inv(Next(s, Receive(k)))
    ensures Lossless(Next(s, Receive(k)))
  {
    hide FlowsOk, DeliveryOk, NetOk, Lossless;
    var s' := Next(s, Receive(k));
    InFlightOk(s, k);
    LosslessAt(s, k);
    match s.net[k]
    case Publish(id, _) =>
      PublishEffect(s, k);
      LosslessAnswer(s, k, PubRec(id, SUCCESS), s');
    case PubRec(id, _) =>
      PubRecEffect(s, k);
      LosslessAnswer(s, k, PubRel(id), s');
    case PubRel(id) =>
      PubRelEffect(s, k);
      LosslessAnswer(s, k, PubRelAnswer(s, id), s');
    case PubComp(id, _) =>
      PubCompEffect(s, k);
      LosslessEnd(s, k, s');
  }

  lemma LosslessAnswer(s: System, k: nat, p: Packet, s': System)
    requires Inv(s) && Lossless(s) && s.connected && k < |s.net| && p.id == s.net[k].id
    requires FlowsOk(s') && s'.connected && AgreeOff(s, s', p.id) && s'.ended == s.ended
    requires s'.net == Without(s.net, k) + [p]
    requires (p.PubRel? ==> p.id in s'.tracked) && (p.PubComp? ==> p.code == SUCCESS)
    ensures Lossless(s')
  {
    Replace(s.net, k, p);
    LosslessReceive(s, k, p.id, s');
  }

  lemma LosslessEnd(s: System, k: nat, s': System)
    requires Inv(s) && Lossless(s) && s.connected && k < |s.net| && s.net[k].PubComp? && s.net[k].id in s.owner
    requires FlowsOk(s') && s'.connected && AgreeOff(s, s', s.net[k].id)
    requires s'.net == Without(s.net, k) && s'.ended == s.ended + [Ending(s.owner[s.net[k].id], s.net[k].code)]
    ensures Lossless(s')
  {
    Drop(s.net, k);
    LosslessReceive(s, k, s.net[k].id, s');
  }

  lemma {:induction false} LosslessRun(s: System, es: seq<Event>)
    requires Inv(s) && Lossless(s) && Run(s, es) && Disconnect !in es
    ensures Inv(Final(s, es)) && Lossless(Final(s, es))
    decreases |es|
  {
    if es != [] {
      assert es[0] in es;
      LosslessStep(s, es[0]);
      LosslessRun(Next(s, es[0]), es[1..]);
    }
  }

  // A flow can end with PacketIdentifierNotFound only if some connection was lost.
  lemma ErrorNeedsDisconnect(es: seq<Event>, e: Ending)
    requires Run(INIT, es) && e in Final(INIT, es).ended && e.code != SUCCESS
    ensures Disconnect in es
  {
    if Disconnect !in es {
      LosslessRun(INIT, es);
      assert false;
    }
  }
}
