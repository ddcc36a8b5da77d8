/**
 Message order (section 4.6 of MQTT 5.0) in the two-party system of module `QoS2Protocol`, and
 for the sender of module `QoS2Client`, when the network is a stream in each direction and a
 reconnect replays the stored publishes in the order of their first sending, as
 `outbound_replay` of crates/mqtt5/src/session/state.rs does.
 */
module QoS2Ordering {
  import opened PacketIds
  import opened QoS2
  import opened QoS2Protocol
  import opened QoS2Client

  // The packets that travel from the sender to the receiver.
  predicate Outbound(p: Packet) {
    p.Publish? || p.PubRel?
  }

  // The publishes appear in the order of their messages.
  predicate InOrder(net: seq<Packet>) {
    forall j, k :: 0 <= j < k < |net| && net[j].Publish? && net[k].Publish? ==> net[j].msg < net[k].msg
  }

  // A packet is received only when no earlier packet in its direction is in flight, and a
  // replay keeps the order of the messages.
  predicate Fifo(s: System, e: Event) {
    match e
    case Receive(k) => k < |s.net| && forall j :: 0 <= j < k ==> Outbound(s.net[j]) != Outbound(s.net[k])
    case Reconnect(replay) => InOrder(replay)
    case _ => true
  }

  predicate FifoRun(s: System, es: seq<Event>)
    requires Run(s, es)
    decreases |es|
  {
    es == [] || (Fifo(s, es[0]) && FifoRun(Next(s, es[0]), es[1..]))
  }

  // What was delivered are the first messages, in order.
  predicate Sequential(s: System) {
    InOrder(s.net) && forall j :: 0 <= j < |s.delivered| ==> s.delivered[j] == j
  }

  // A message not yet delivered is in flight as a PUBLISH.
  lemma UndeliveredInFlight(s: System, m: Message) returns (j: nat)
    requires Inv(s) && s.connected && m < |s.ids| && m !in s.delivered
    ensures j < |s.net| && s.net[j].Publish? && s.net[j].msg == m
  {
    assert !HasEnded(s.ended, m);
    var id := s.ids[m];
    assert InFlight(s.net, id);
    j :| 0 <= j < |s.net| && s.net[j].id == id;
    assert PacketOk(s, s.net[j]);
  }

  lemma NotDelivered(s: System, m: Message)
    requires Sequential(s)
    ensures m in s.delivered <==> m < |s.delivered|
  {
    if m < |s.delivered| {
      assert s.delivered[m] == m;
    }
  }

  // The next PUBLISH to be delivered carries the next message.
  lemma NextInLine(s: System, k: nat)
    requires Inv(s) && Sequential(s) && Enabled(s, Receive(k)) && Fifo(s, Receive(k))
    requires s.net[k].Publish? && s.net[k].id !in s.tracked
    ensures s.net[k].msg == |s.delivered|
  {
    var m, d := s.net[k].msg, |s.delivered|;
    assert PacketOk(s, s.net[k]);
    assert s.owner[s.net[k].id] == m && m < |s.ids| && m !in s.delivered;
    NotDelivered(s, m);
    NotDelivered(s, d);
    if m > d {
      var j := UndeliveredInFlight(s, d);
    }
  }

  lemma InOrderWithout(net: seq<Packet>, k: nat)
    requires k < |net| && InOrder(net)
    ensures InOrder(Without(net, k))
    ensures forall p: Packet :: !p.Publish? ==> InOrder(Without(net, k) + [p])
  {
    var less := Without(net, k);
    forall i, j | 0 <= i < j < |less| && less[i].Publish? && less[j].Publish? ensures less[i].msg < less[j].msg {
      assert less[i] == net[if i < k then i else i + 1] && less[j] == net[if j < k then j else j + 1];
    }
  }

  lemma OrderedReceipt(s: System, k: nat)
    requires Inv(s) && Sequential(s) && Enabled(s, Receive(k)) && Fifo(s, Receive(k))
    ensures Sequential(Next(s, Receive(k)))
  {
    hide FlowsOk, DeliveryOk, NetOk, Fifo;
    InFlightOk(s, k);
    InOrderWithout(s.net, k);
    match s.net[k]
    case Publish(id, msg) =>
      PublishEffect(s, k);
      if id !in s.tracked {
        NextInLine(s, k);
      }
    case PubRec(_, _) => PubRecEffect(s, k);
    case PubRel(_) => PubRelEffect(s, k);
    case PubComp(_, _) => PubCompEffect(s, k);
  }

  lemma OrderedPublish(s: System, elsewhere: set<PacketId>)
    requires Inv(s) && Sequential(s) && Enabled(s, PublishNew(elsewhere))
    ensures Sequential(Next(s, PublishNew(elsewhere)))
  {
    PublishNewEffect(s, elsewhere);
    forall j | 0 <= j < |s.net| && s.net[j].Publish? ensures s.net[j].msg < |s.ids| {
      assert PacketOk(s, s.net[j]);
    }
  }

  lemma {:induction false} OrderedRun(s: System, es: seq<Event>)
    requires Inv(s) && Sequential(s) && Run(s, es) && FifoRun(s, es)
    ensures Inv(Final(s, es)) && Sequential(Final(s, es))
    decreases |es|
  {
    hide FlowsOk, DeliveryOk, NetOk;
    if es != [] {
      StepKeeps(s, es[0]);
      match es[0] {
        case Receive(k) => OrderedReceipt(s, k);
        case PublishNew(elsewhere) => OrderedPublish(s, elsewhere);
        case _ =>
      }
      OrderedRun(Next(s, es[0]), es[1..]);
    }
  }

  lemma OnlyPublished(s: System)
    requires Inv(s) && Sequential(s)
    ensures |s.delivered| <= |s.ids|
  {
    if |s.delivered| > 0 {
      assert s.delivered[|s.delivered| - 1] < |s.ids|;
    }
  }

  // Whatever connections are lost, the receiver has at any time been given exactly the first
  // so many messages published, each once and in the order in which they were published.
  lemma DeliveredInOrder(es: seq<Event>)
    requires Run(INIT, es) && FifoRun(INIT, es)
    ensures
      var s := Final(INIT, es);
      |s.delivered| <= |s.ids| && s.delivered == seq(|s.delivered|, i => i)
  {
    hide FlowsOk, DeliveryOk, NetOk, Run, Final, FifoRun;
    InitOk();
    OrderedRun(INIT, es);
    OnlyPublished(Final(INIT, es));
  }

  // ---- the client ----

  predicate ClientFifoRun(s: System, es: seq<Event>)
    requires ClientRun(s, es)
    decreases |es|
  {
    es == [] || (Fifo(s, es[0]) && ClientFifoRun(ClientNext(s, es[0]), es[1..]))
  }

  lemma {:induction false} ClientOrderSimulates(s: System, es: seq<Event>)
    requires OneStage(s) && Inv(Abs(s)) && ClientRun(s, es) && ClientFifoRun(s, es)
    ensures Run(Abs(s), es) && FifoRun(Abs(s), es)
    decreases |es|
  {
    hide Inv, ClientNext, Next, OneStage, ClientEnabled, Enabled;
    if es != [] {
      StepSimulates(s, es[0]);
      StepKeeps(Abs(s), es[0]);
      ClientOrderSimulates(ClientNext(s, es[0]), es[1..]);
    }
  }

  // The client's messages, too, are delivered in the order in which they were published.
  lemma ClientDeliveredInOrder(es: seq<Event>)
    requires ClientRun(INIT, es) && ClientFifoRun(INIT, es)
    ensures
      var s := ClientFinal(INIT, es);
      |s.delivered| <= |s.ids| && s.delivered == seq(|s.delivered|, i => i)
  {
    hide Inv, Run, Final, ClientRun, ClientFinal, FifoRun, ClientFifoRun;
    assert Abs(INIT) == INIT;
    InitOk();
    ClientOrderSimulates(INIT, es);
    ClientRefines(es);
    DeliveredInOrder(es);
  }
}
