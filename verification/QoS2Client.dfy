/**
 The sender as the client runs it (crates/mqtt5/src/client/direct/handlers.rs and reader.rs,
 crates/mqtt5/src/session/state.rs), against the receiver of module `QoS2`. It differs from
 the sender of module `QoS2Protocol` in two points: the PUBREL of a message is tracked only
 once its PUBREC has arrived, and a reconnect replays all tracked PUBRELs, unfiltered, before
 all stored publishes.

 The events and the states are those of `QoS2Protocol`, and every run here is one there.
 */
module QoS2Client {
  import opened Options
  import opened PacketIds
  import opened QoS2
  import opened QoS2Protocol

  predicate AllPubRels(s: System, net: seq<Packet>) {
    && (forall k :: 0 <= k < |net| ==> net[k].PubRel? && net[k].id in s.pubrels)
    && (forall j, k :: 0 <= j < k < |net| ==> net[j].id != net[k].id)
    && (forall id :: id in s.pubrels ==> InFlight(net, id))
  }

  predicate AllPublishes(s: System, net: seq<Packet>) {
    && (forall k :: 0 <= k < |net| ==> net[k].Publish? && net[k].id in s.store && s.store[net[k].id] == net[k].msg)
    && (forall j, k :: 0 <= j < k < |net| ==> net[j].id != net[k].id)
    && (forall id :: id in s.store ==> InFlight(net, id))
  }

  // `outbound_replay`: the PUBREL of each tracked identifier, then each stored publish.
  predicate IsOutboundReplay(s: System, replay: seq<Packet>) {
    exists n: nat :: n <= |replay| && AllPubRels(s, replay[..n]) && AllPublishes(s, replay[n..])
  }

  predicate ClientEnabled(s: System, e: Event) {
    match e
    case Reconnect(replay) => !s.connected && IsOutboundReplay(s, replay)
    case _ => Enabled(s, e)
  }

  function Dropped(s: System): System {
    s.(connected := false, net := [])
  }

  // `check_acknowledgement_matches`, `settle_acknowledgement` and `handle_pubrec_outgoing`. An
  // acknowledgement that does not match what the identifier waits for ends the connection.
  function ClientPubRec(s: System, id: PacketId, code: ReasonCode): System {
    if code >= 0x80 then
      if id in s.store then End(s.(store := s.store - {id}, pubrels := s.pubrels - {id}), id, code)
      else if id in s.pubrels then Dropped(s)
      else s
    else s.(store := s.store - {id}, pubrels := s.pubrels + {id}, net := s.net + [PubRel(id)])
  }

  function ClientPubComp(s: System, id: PacketId, code: ReasonCode): System {
    if id in s.store then Dropped(s)
    else if id in s.pubrels then End(s.(pubrels := s.pubrels - {id}), id, code)
    else s
  }

  function ClientNext(s: System, e: Event): System
    requires ClientEnabled(s, e)
  {
    match e
    case PublishNew(elsewhere) =>
      var n := Allocate(s, elsewhere).value;
      var id, msg := Cycle(s.nextId, n), |s.ids|;
      s.(store := s.store[id := msg],
      nextId := Cycle(s.nextId, n + 1),
      net := if s.connected then s.net + [Publish(id, msg)] else s.net,
      ids := s.ids + [id],
      owner := s.owner[id := msg])
    case Receive(k) =>
      var s1 := s.(net := Without(s.net, k));
      (match s.net[k]
       case PubRec(id, code) => ClientPubRec(s1, id, code)
       case PubComp(id, code) => ClientPubComp(s1, id, code)
       case p => Handle(s1, p))
    case Disconnect => Dropped(s)
    case Reconnect(replay) => s.(connected := true, net := replay)
  }

  predicate ClientRun(s: System, es: seq<Event>)
    decreases |es|
  {
    es == [] || (ClientEnabled(s, es[0]) && ClientRun(ClientNext(s, es[0]), es[1..]))
  }

  function ClientFinal(s: System, es: seq<Event>): System
    requires ClientRun(s, es)
    decreases |es|
  {
    if es == [] then s else ClientFinal(ClientNext(s, es[0]), es[1..])
  }

  // ---- acknowledgements in any state ----

  datatype Stage = AwaitingPubRec | AwaitingPubComp

  // `outbound_stage`: which acknowledgement the identifier is waiting for.
  function StageOf(s: System, id: PacketId): Option<Stage> {
    if id in s.store then Some(AwaitingPubRec) else if id in s.pubrels then Some(AwaitingPubComp) else None
  }

  // The stages in which an acknowledgement is in order.
  function AcceptedAt(p: Packet): set<Stage> {
    match p
    case PubRec(_, code) => if code >= 0x80 then {AwaitingPubRec} else {AwaitingPubRec, AwaitingPubComp}
    case PubComp(_, _) => {AwaitingPubComp}
    case _ => {}
  }

  // The acknowledgement accepts the publish and is answered with a PUBREL.
  predicate Continues(p: Packet) {
    p.PubRec? && p.code < 0x80
  }

  // In any state, reachable or not: an acknowledgement that is not in order at the stage of its
  // identifier ends the connection and changes neither session. Any other moves the identifier
  // to the PUBCOMP stage if it continues the flow, with a PUBREL, and otherwise releases it and
  // ends its flow with the code received. Other identifiers stay where they are.
  lemma Acknowledged(s: System, k: nat)
    requires ClientEnabled(s, Receive(k)) && (s.net[k].PubRec? || s.net[k].PubComp?)
    ensures
      var p, s' := s.net[k], ClientNext(s, Receive(k));
      var stage := StageOf(s, p.id);
      && (s'.connected <==> stage == None || stage.value in AcceptedAt(p))
      && (!s'.connected ==> s' == s.(connected := false, net := []))
      && (s'.connected ==>
            && s'.net == Without(s.net, k) + (if Continues(p) then [PubRel(p.id)] else [])
            && StageOf(s', p.id) == (if Continues(p) then Some(AwaitingPubComp) else None)
            && (forall id :: id != p.id ==> StageOf(s', id) == StageOf(s, id))
            && s'.ended == s.ended + (if stage.Some? && p.id in s.owner && !Continues(p)
                                      then [Ending(s.owner[p.id], p.code)] else [])
            && s'.delivered == s.delivered && s'.tracked == s.tracked)
  {
  }

  // ---- every client run is a run of the protocol ----

  // The state of the protocol that a client state stands for: there, the identifiers of stored
  // publishes are tracked as well.
  function Abs(s: System): System {
    s.(pubrels := s.pubrels + s.store.Keys)
  }

  // No identifier waits for both acknowledgements.
  ghost predicate OneStage(s: System) {
    s.store.Keys !! s.pubrels
  }

  lemma SameAllocation(s: System, elsewhere: set<PacketId>)
    ensures Allocate(Abs(s), elsewhere) == Allocate(s, elsewhere)
  {
    var f := (id: PacketId) => id in s.store || id in s.pubrels || id in elsewhere;
    var t := Abs(s);
    var g := (id: PacketId) => id in t.store || id in t.pubrels || id in elsewhere;
    FirstFreeExtensional(s.nextId, f, g);
  }

  lemma FirstFreeExtensional(start: PacketId, f: PacketId -> bool, g: PacketId -> bool)
    requires forall id: PacketId :: f(id) == g(id)
    ensures FirstFree(start, f, 0) == FirstFree(start, g, 0)
  {
    var a, b := FirstFree(start, f, 0), FirstFree(start, g, 0);
    if a.Some? {
      assert !g(Cycle(start, a.value));
    }
    if b.Some? {
      assert !f(Cycle(start, b.value));
    }
  }

  lemma PublishSimulates(s: System, elsewhere: set<PacketId>)
    requires OneStage(s) && ClientEnabled(s, PublishNew(elsewhere))
    ensures
      var e := PublishNew(elsewhere);
      Enabled(Abs(s), e) && Abs(ClientNext(s, e)) == Next(Abs(s), e) && OneStage(ClientNext(s, e))
  {
    hide Allocate;
    SameAllocation(s, elsewhere);
    PublishNewEffect(Abs(s), elsewhere);
    var n := Allocate(s, elsewhere).value;
    var id := Cycle(s.nextId, n);
    assert s.pubrels + s.store[id := |s.ids|].Keys == (s.pubrels + s.store.Keys) + {id};
  }

  lemma ReceiptSimulates(s: System, k: nat)
    requires OneStage(s) && Inv(Abs(s)) && ClientEnabled(s, Receive(k))
    ensures
      var e := Receive(k);
      Enabled(Abs(s), e) && Abs(ClientNext(s, e)) == Next(Abs(s), e) && OneStage(ClientNext(s, e))
  {
    hide FlowsOk, DeliveryOk, NetOk;
    var t := Abs(s);
    InFlightOk(t, k);
    match s.net[k]
    case Publish(_, _) =>
      PublishEffect(s, k);
      PublishEffect(t, k);
    case PubRec(id, _) =>
      PubRecEffect(t, k);
      assert (s.pubrels + {id}) + (s.store - {id}).Keys == s.pubrels + s.store.Keys;
    case PubRel(_) =>
      PubRelEffect(s, k);
      PubRelEffect(t, k);
    case PubComp(id, _) =>
      PubCompEffect(t, k);
      assert (s.pubrels - {id}) + s.store.Keys == (s.pubrels + s.store.Keys) - {id};
  }

  lemma ReplaySimulates(s: System, replay: seq<Packet>)
    requires OneStage(s) && IsOutboundReplay(s, replay)
    ensures IsReplay(Abs(s), replay)
  {
    hide AllPubRels, AllPublishes, IsReplay;
    var n: nat :| n <= |replay| && AllPubRels(s, replay[..n]) && AllPublishes(s, replay[n..]);
    ReplayOfParts(s, replay[..n], replay[n..]);
    assert replay[..n] + replay[n..] == replay;
  }

  lemma ReplayOfParts(s: System, rels: seq<Packet>, pubs: seq<Packet>)
    requires OneStage(s) && AllPubRels(s, rels) && AllPublishes(s, pubs)
    ensures IsReplay(Abs(s), rels + pubs)
  {
    hide InFlight;
    forall id: PacketId ensures InFlight(rels, id) || InFlight(pubs, id) ==> InFlight(rels + pubs, id) {
      InFlightInPart(rels, pubs, id);
    }
  }

  lemma InFlightInPart(a: seq<Packet>, b: seq<Packet>, id: PacketId)
    ensures InFlight(a, id) || InFlight(b, id) ==> InFlight(a + b, id)
  {
    if k :| 0 <= k < |a| && a[k].id == id {
      assert (a + b)[k].id == id;
    } else if k :| 0 <= k < |b| && b[k].id == id {
      assert (a + b)[|a| + k].id == id;
    }
  }

  lemma StepSimulates(s: System, e: Event)
    requires OneStage(s) && Inv(Abs(s)) && ClientEnabled(s, e)
    ensures Enabled(Abs(s), e) && Abs(ClientNext(s, e)) == Next(Abs(s), e) && OneStage(ClientNext(s, e))
  {
    match e
    case PublishNew(elsewhere) => PublishSimulates(s, elsewhere);
    case Receive(k) => ReceiptSimulates(s, k);
    case Disconnect =>
    case Reconnect(replay) => ReplaySimulates(s, replay);
  }

  lemma {:induction false} RunSimulates(s: System, es: seq<Event>)
    requires OneStage(s) && Inv(Abs(s)) && ClientRun(s, es)
    ensures Run(Abs(s), es) && Abs(ClientFinal(s, es)) == Final(Abs(s), es) && OneStage(ClientFinal(s, es))
    decreases |es|
  {
    hide Inv, ClientNext, Next, Abs, OneStage;
    if es != [] {
      StepSimulates(s, es[0]);
      StepKeeps(Abs(s), es[0]);
      RunSimulates(ClientNext(s, es[0]), es[1..]);
    }
  }

  // Refinement: the client's run, event by event, is a run of the protocol of the handlers,
  // and its unfiltered replay is the filtered one there.
  lemma ClientRefines(es: seq<Event>)
    requires ClientRun(INIT, es)
    ensures Run(INIT, es) && Abs(ClientFinal(INIT, es)) == Final(INIT, es)
    ensures OneStage(ClientFinal(INIT, es))
  {
    assert Abs(INIT) == INIT;
    InitOk();
    RunSimulates(INIT, es);
  }

  // So the client, too, has its messages delivered exactly once.
  lemma ClientExactlyOnce(es: seq<Event>)
    requires ClientRun(INIT, es)
    ensures
      var s := ClientFinal(INIT, es);
      && (forall m: Message :: multiset(s.delivered)[m] <= 1)
      && (forall m :: m in s.delivered ==> m < |s.ids|)
      && (forall e :: e in s.ended ==> multiset(s.delivered)[e.msg] == 1 && FinalCode(e.code))
      && (forall j, k :: 0 <= j < k < |s.ended| ==> s.ended[j].msg != s.ended[k].msg)
  {
    ClientRefines(es);
    ExactlyOnce(es);
  }

  // ---- and is never stuck ----

  lemma ListPubRels(s: System) returns (rels: seq<Packet>)
    ensures AllPubRels(s, rels)
  {
    var xs := Enumerate(s.pubrels);
    rels := seq(|xs|, k requires 0 <= k < |xs| => PubRel(xs[k]));
    assert forall k :: 0 <= k < |xs| ==> rels[k].id == xs[k] && xs[k] in xs;
    forall id | id in s.pubrels ensures InFlight(rels, id) {
      var k :| 0 <= k < |xs| && xs[k] == id;
      assert rels[k].id == id;
    }
  }

  lemma ListPublishes(s: System) returns (pubs: seq<Packet>)
    ensures AllPublishes(s, pubs)
  {
    var xs := Enumerate(s.store.Keys);
    forall k | 0 <= k < |xs| ensures xs[k] in s.store {
      assert xs[k] in xs;
    }
    pubs := seq(|xs|, k requires 0 <= k < |xs| => Publish(xs[k], s.store[xs[k]]));
    assert forall k :: 0 <= k < |xs| ==> pubs[k].id == xs[k];
    forall id | id in s.store ensures InFlight(pubs, id) {
      var k :| 0 <= k < |xs| && xs[k] == id;
      assert pubs[k].id == id;
    }
  }

  lemma OutboundReplayExists(s: System) returns (replay: seq<Packet>)
    ensures IsOutboundReplay(s, replay)
  {
    hide AllPubRels, AllPublishes;
    var rels := ListPubRels(s);
    var pubs := ListPublishes(s);
    replay := rels + pubs;
    assert replay[..|rels|] == rels && replay[|rels|..] == pubs;
  }

  lemma {:induction false} ClientReceipts(s: System) returns (es: seq<Event>)
    requires OneStage(s) && Inv(Abs(s)) && s.connected
    ensures ClientRun(s, es) && Quiet(ClientFinal(s, es)) && ClientFinal(s, es).ids == s.ids
    decreases Weight(s.net)
  {
    hide Inv, Quiet, ClientNext, Next, Weight;
    if s.net == [] {
      SilenceIsQuiet(Abs(s));
      QuietAbs(s);
      es := [];
    } else {
      StepSimulates(s, Receive(0));
      StepKeeps(Abs(s), Receive(0));
      ReceiptLightens(Abs(s), 0);
      var rest := ClientReceipts(ClientNext(s, Receive(0)));
      es := [Receive(0)] + rest;
      assert es[1..] == rest;
    }
  }

  lemma QuietAbs(s: System)
    requires Quiet(Abs(s))
    ensures Quiet(s)
  {
    assert forall id :: id in s.pubrels ==> id in Abs(s).pubrels;
  }

  // From every state the client reaches, some continuation delivers every message published
  // so far exactly once and empties both sessions.
  lemma ClientCanAlwaysFinish(before: seq<Event>) returns (es: seq<Event>)
    requires ClientRun(INIT, before)
    ensures
      var s := ClientFinal(INIT, before);
      ClientRun(s, es) && Quiet(ClientFinal(s, es)) && ClientFinal(s, es).ids == s.ids
  {
    hide Inv, Quiet, IsOutboundReplay, Abs, OneStage;
    ClientRefines(before);
    InitOk();
    RunKeeps(INIT, before);
    var s := ClientFinal(INIT, before);
    if s.connected {
      es := ClientReceipts(s);
    } else {
      var replay := OutboundReplayExists(s);
      StepSimulates(s, Reconnect(replay));
      StepKeeps(Abs(s), Reconnect(replay));
      var rest := ClientReceipts(ClientNext(s, Reconnect(replay)));
      es := [Reconnect(replay)] + rest;
      assert es[1..] == rest;
    }
  }

  // ---- the handlers of qos2.rs need the filter ----

  // The handlers, with PUBRELs tracked at publish time, under the unfiltered replay.

  function UnfilteredNext(s: System, e: Event): System
    requires ClientEnabled(s, e)
  {
    match e
    case Reconnect(replay) => s.(connected := true, net := replay)
    case _ => Next(s, e)
  }

  predicate UnfilteredRun(s: System, es: seq<Event>)
    decreases |es|
  {
    es == [] || (ClientEnabled(s, es[0]) && UnfilteredRun(UnfilteredNext(s, es[0]), es[1..]))
  }

  function UnfilteredFinal(s: System, es: seq<Event>): System
    requires UnfilteredRun(s, es)
    decreases |es|
  {
    if es == [] then s else UnfilteredFinal(UnfilteredNext(s, es[0]), es[1..])
  }

  ghost predicate NoneTwice(ms: seq<Message>) {
    forall j, k :: 0 <= j < k < |ms| ==> ms[j] != ms[k]
  }

  predicate OneConnection(es: seq<Event>) {
    forall k :: 0 <= k < |es| ==> !es[k].Reconnect?
  }

  // Whatever happens before the next reconnect, no message is delivered twice.
  ghost predicate DeliversOnce(s: System) {
    forall es :: UnfilteredRun(s, es) && OneConnection(es) ==> NoneTwice(UnfilteredFinal(s, es).delivered)
  }

  // The stored publishes that were delivered before are the receiver's to suppress, and no
  // PUBREL is replayed that would make it forget them.
  ghost predicate SafeToReplay(s: System) {
    forall id :: id in s.store && s.store[id] in s.delivered ==> id in s.tracked && id !in s.pubrels
  }

  // What holds in every run: messages are numbered as they were published.
  ghost predicate Numbered(s: System) {
    && (forall id :: id in s.store ==> s.store[id] < |s.ids| && s.ids[s.store[id]] == id)
    && (forall k :: 0 <= k < |s.delivered| ==> s.delivered[k] < |s.ids|)
    && (forall k :: 0 <= k < |s.net| && s.net[k].Publish? ==> s.net[k].msg < |s.ids|)
  }

  // The k-th packet is the only one in flight with its identifier, and that is not to be reused.
  predicate Alone(s: System, k: nat)
    requires k < |s.net|
  {
    && s.net[k].id in s.store
    && forall j :: 0 <= j < |s.net| && s.net[j].id == s.net[k].id ==> j == k
  }

  // What holds on a connection after a safe replay: the publishes in flight are distinct, and
  // each is undelivered or will be suppressed.
  ghost predicate Guarded(s: System) {
    && NoneTwice(s.delivered)
    && (forall j, k :: 0 <= j < k < |s.net| && s.net[j].Publish? && s.net[k].Publish? ==>
                         s.net[j].msg != s.net[k].msg)
    && (forall k :: 0 <= k < |s.net| && s.net[k].Publish? && s.net[k].msg in s.delivered ==>
                      s.net[k].id in s.tracked && Alone(s, k))
  }

  // s' adds acknowledgements for id to the network and touches no other identifier.
  ghost predicate AnswersFor(s: System, s': System, id: PacketId) {
    && s'.ids == s.ids && s.net <= s'.net
    && (forall k :: |s.net| <= k < |s'.net| ==> !s'.net[k].Publish? && s'.net[k].id == id)
    && (forall i :: i in s'.store ==> i in s.store && s'.store[i] == s.store[i])
    && (forall i :: i != id ==> (i in s.store <==> i in s'.store) && (i in s.tracked <==> i in s'.tracked))
  }

  lemma PerformAnswers(s: System, a: Action, msg: Message)
    ensures AnswersFor(s, Perform(s, a, msg), a.id)
    ensures Perform(s, a, msg).delivered == if a.DeliverMessage? then s.delivered + [msg] else s.delivered
  {
  }

  lemma AnswersAdd(s: System, s1: System, s2: System, id: PacketId)
    requires AnswersFor(s, s1, id) && AnswersFor(s1, s2, id)
    ensures AnswersFor(s, s2, id)
  {
  }

  lemma {:induction false} PerformAllAnswers(s: System, actions: seq<Action>, msg: Message, id: PacketId)
    requires forall k :: 0 <= k < |actions| ==> actions[k].id == id && !actions[k].DeliverMessage?
    ensures AnswersFor(s, PerformAll(s, actions, msg), id) && PerformAll(s, actions, msg).delivered == s.delivered
    decreases |actions|
  {
    hide AnswersFor, Perform;
    if actions == [] {
      AnswersNone(s, id);
    } else {
      var s1 := Perform(s, actions[0], msg);
      PerformAnswers(s, actions[0], msg);
      PerformAllAnswers(s1, actions[1..], msg, id);
      AnswersAdd(s, s1, PerformAll(s, actions, msg), id);
    }
  }

  lemma AnswersNone(s: System, id: PacketId)
    ensures AnswersFor(s, s, id)
  {
  }

  // A publish that the receiver does not track.
  predicate IsNew(s: System, p: Packet) {
    p.Publish? && p.id !in s.tracked
  }

  lemma ReceiptAnswers(s: System, k: nat)
    requires Enabled(s, Receive(k))
    ensures
      var s', p := Next(s, Receive(k)), s.net[k];
      && AnswersFor(s.(net := Without(s.net, k)), s', p.id)
      && s'.delivered == if IsNew(s, p) then s.delivered + [p.msg] else s.delivered
  {
    hide PerformAll;
    var s1 := s.(net := Without(s.net, k));
    match s.net[k]
    case Publish(id, msg) => PublishEffect(s, k);
    case PubRec(id, code) => PerformAllAnswers(s1, HandleIncomingPubRec(id, code, id in s1.store), 0, id);
    case PubRel(id) => PerformAllAnswers(s1, HandleIncomingPubRel(id, id in s1.tracked), 0, id);
    case PubComp(id, code) => PerformAllAnswers(s1, HandleIncomingPubComp(id, code, id in s1.pubrels), 0, id);
  }

  // Where the publishes in flight were before a receipt.
  lemma PublishWas(s: System, k: nat, s': System, i: nat) returns (j: nat)
    requires k < |s.net| && AnswersFor(s.(net := Without(s.net, k)), s', s.net[k].id)
    requires i < |s'.net| && (s'.net[i].Publish? || s'.net[i].id != s.net[k].id)
    ensures j < |s.net| && j != k && s.net[j] == s'.net[i] && j == if i < k then i else i + 1
  {
    var less := Without(s.net, k);
    assert i < |less| && s'.net[i] == less[i];
    j := if i < k then i else i + 1;
  }

  // ---- messages stay numbered ----

  lemma NumberedReceipt(s: System, k: nat)
    requires Numbered(s) && Enabled(s, Receive(k))
    ensures Numbered(Next(s, Receive(k)))
  {
    hide Next;
    ReceiptAnswers(s, k);
    var s' := Next(s, Receive(k));
    forall i | 0 <= i < |s'.net| && s'.net[i].Publish? ensures s'.net[i].msg < |s'.ids| {
      var j := PublishWas(s, k, s', i);
    }
  }

  lemma NumberedReconnect(s: System, replay: seq<Packet>)
    requires Numbered(s) && IsOutboundReplay(s, replay)
    ensures Numbered(s.(connected := true, net := replay))
  {
    hide AllPubRels, AllPublishes;
    var n: nat :| n <= |replay| && AllPubRels(s, replay[..n]) && AllPublishes(s, replay[n..]);
    forall k | 0 <= k < |replay| && replay[k].Publish? ensures replay[k].msg < |s.ids| {
      PublishInReplay(s, replay, n, k);
    }
  }

  lemma NumberedStep(s: System, e: Event)
    requires Numbered(s) && ClientEnabled(s, e)
    ensures Numbered(UnfilteredNext(s, e))
  {
    match e
    case PublishNew(elsewhere) => PublishNewEffect(s, elsewhere);
    case Receive(k) => NumberedReceipt(s, k);
    case Disconnect =>
    case Reconnect(replay) => NumberedReconnect(s, replay);
  }

  // ---- a connection after a safe replay ----

  lemma GuardedReceipt(s: System, k: nat)
    requires Guarded(s) && Enabled(s, Receive(k))
    ensures Guarded(Next(s, Receive(k)))
  {
    hide Next, AnswersFor, Alone;
    ReceiptAnswers(s, k);
    var s' := Next(s, Receive(k));
    forall i, j | 0 <= i < j < |s'.net| && s'.net[i].Publish? && s'.net[j].Publish?
      ensures s'.net[i].msg != s'.net[j].msg
    {
      var i0 := PublishWas(s, k, s', i);
      var j0 := PublishWas(s, k, s', j);
    }
    forall i | 0 <= i < |s'.net| && s'.net[i].Publish? && s'.net[i].msg in s'.delivered
      ensures s'.net[i].id in s'.tracked && Alone(s', i)
    {
      var j := PublishWas(s, k, s', i);
      assert s.net[j].msg in s.delivered;
      StaysAlone(s, k, s', i, j);
    }
  }

  lemma StaysAlone(s: System, k: nat, s': System, i: nat, j: nat)
    requires k < |s.net| && AnswersFor(s.(net := Without(s.net, k)), s', s.net[k].id)
    requires i < |s'.net| && j < |s.net| && j != k && s'.net[i] == s.net[j] && s.net[j].id in s.tracked && Alone(s, j)
    requires j == if i < k then i else i + 1
    ensures s'.net[i].id in s'.tracked && Alone(s', i)
  {
    var id := s.net[j].id;
    assert id != s.net[k].id;
    forall l | 0 <= l < |s'.net| && s'.net[l].id == id ensures l == i {
      var l0 := PublishWas(s, k, s', l);
    }
  }

  lemma GuardedPublish(s: System, elsewhere: set<PacketId>)
    requires Guarded(s) && Numbered(s) && Enabled(s, PublishNew(elsewhere))
    ensures Guarded(Next(s, PublishNew(elsewhere)))
  {
    hide Next, Allocate;
    PublishNewEffect(s, elsewhere);
    var s' := Next(s, PublishNew(elsewhere));
    forall k | 0 <= k < |s'.net| && s'.net[k].Publish? && s'.net[k].msg in s'.delivered
      ensures s'.net[k].id in s'.tracked && Alone(s', k)
    {
      assert k < |s.net| && Alone(s, k);
    }
  }

  lemma GuardedStep(s: System, e: Event)
    requires Guarded(s) && Numbered(s) && ClientEnabled(s, e) && !e.Reconnect?
    ensures Guarded(UnfilteredNext(s, e))
  {
    match e
    case PublishNew(elsewhere) => GuardedPublish(s, elsewhere);
    case Receive(k) => GuardedReceipt(s, k);
    case Disconnect =>
  }

  lemma GuardedMeans(s: System)
    requires Guarded(s)
    ensures NoneTwice(s.delivered)
  {
  }

  lemma {:induction false} GuardedRun(s: System, es: seq<Event>)
    requires Guarded(s) && Numbered(s) && UnfilteredRun(s, es) && OneConnection(es)
    ensures NoneTwice(UnfilteredFinal(s, es).delivered)
    decreases |es|
  {
    hide Guarded, Numbered, UnfilteredNext, ClientEnabled, NoneTwice;
    if es == [] {
      GuardedMeans(s);
    } else {
      GuardedStep(s, es[0]);
      NumberedStep(s, es[0]);
      GuardedRun(UnfilteredNext(s, es[0]), es[1..]);
    }
  }

  lemma PublishInReplay(s: System, replay: seq<Packet>, n: nat, k: nat)
    requires n <= |replay| && AllPubRels(s, replay[..n]) && AllPublishes(s, replay[n..])
    requires k < |replay| && replay[k].Publish?
    ensures k >= n && replay[k].id in s.store && s.store[replay[k].id] == replay[k].msg
  {
    assert forall i :: 0 <= i < n ==> replay[..n][i] == replay[i];
    assert forall i :: n <= i < |replay| ==> replay[n..][i - n] == replay[i];
  }

  // In a replay, two packets share an identifier only if one is its PUBREL.
  lemma SameIdInReplay(s: System, replay: seq<Packet>, n: nat, j: nat, k: nat)
    requires n <= |replay| && AllPubRels(s, replay[..n]) && AllPublishes(s, replay[n..])
    requires j < |replay| && k < |replay| && replay[k].Publish? && replay[j].id == replay[k].id && j != k
    ensures replay[j].PubRel? && replay[j].id in s.pubrels
  {
    PublishInReplay(s, replay, n, k);
    assert forall i :: 0 <= i < n ==> replay[..n][i] == replay[i];
    assert forall i :: n <= i < |replay| ==> replay[n..][i - n] == replay[i];
  }

  lemma SafeReplayIsGuarded(s: System, replay: seq<Packet>)
    requires Numbered(s) && NoneTwice(s.delivered) && SafeToReplay(s) && IsOutboundReplay(s, replay)
    ensures Guarded(s.(connected := true, net := replay))
  {
    hide AllPubRels, AllPublishes;
    var n: nat :| n <= |replay| && AllPubRels(s, replay[..n]) && AllPublishes(s, replay[n..]);
    var s' := s.(connected := true, net := replay);
    forall j, k | 0 <= j < k < |replay| && replay[j].Publish? && replay[k].Publish?
      ensures replay[j].msg != replay[k].msg
    {
      PublishInReplay(s, replay, n, j);
      PublishInReplay(s, replay, n, k);
      if replay[j].id == replay[k].id {
        SameIdInReplay(s, replay, n, j, k);
      }
    }
    forall k | 0 <= k < |replay| && replay[k].Publish? && replay[k].msg in s.delivered
      ensures replay[k].id in s.tracked && Alone(s', k)
    {
      PublishInReplay(s, replay, n, k);
      forall j | 0 <= j < |replay| && replay[j].id == replay[k].id ensures j == k {
        if j != k {
          SameIdInReplay(s, replay, n, j, k);
        }
      }
    }
  }

  // ---- a connection after an unsafe one ----

  lemma ReplayedPubRel(s: System, rels: seq<Packet>, id: PacketId) returns (k: nat)
    requires AllPubRels(s, rels) && id in s.pubrels
    ensures k < |rels| && rels[k] == PubRel(id)
  {
    assert InFlight(rels, id);
    k :| 0 <= k < |rels| && rels[k].id == id;
  }

  lemma ReplayedPublish(s: System, pubs: seq<Packet>, id: PacketId) returns (k: nat)
    requires AllPublishes(s, pubs) && id in s.store
    ensures k < |pubs| && pubs[k] == Publish(id, s.store[id])
  {
    assert InFlight(pubs, id);
    k :| 0 <= k < |pubs| && pubs[k].id == id;
  }

  lemma TwoEvents(s: System, e: Event, f: Event)
    requires !e.Reconnect? && !f.Reconnect? && Enabled(s, e) && Enabled(Next(s, e), f)
    ensures UnfilteredRun(s, [e, f]) && UnfilteredFinal(s, [e, f]) == Next(Next(s, e), f)
  {
    hide Next, Enabled;
    var s1 := Next(s, e);
    OneEvent(s1, f);
    assert [e, f][1..] == [f];
  }

  lemma OneEvent(s: System, e: Event)
    requires !e.Reconnect? && Enabled(s, e)
    ensures UnfilteredRun(s, [e]) && UnfilteredFinal(s, [e]) == Next(s, e)
  {
    hide Next, Enabled;
    assert [e][1..] == [];
    assert UnfilteredRun(Next(s, e), []) && UnfilteredFinal(Next(s, e), []) == Next(s, e);
  }

  lemma TwiceIn(ms: seq<Message>, m: Message)
    requires m in ms
    ensures !NoneTwice(ms + [m])
  {
    var k :| 0 <= k < |ms| && ms[k] == m;
    assert (ms + [m])[k] == (ms + [m])[|ms|];
  }

  // A replayed PUBREL makes the receiver forget the identifier, and the PUBLISH behind it is new.
  lemma DeliveredAfterPubRel(s: System, i: nat, j: nat)
    requires s.connected && i < j < |s.net| && s.net[i].PubRel? && s.net[j].Publish?
    requires s.net[i].id == s.net[j].id && s.net[j].msg in s.delivered
    ensures !DeliversOnce(s)
  {
    hide NoneTwice, UnfilteredRun, UnfilteredFinal;
    PubRelEffect(s, i);
    var s1 := Next(s, Receive(i));
    assert s1.net[j - 1] == s.net[j];
    PublishEffect(s1, j - 1);
    TwoEvents(s, Receive(i), Receive(j - 1));
    TwiceIn(s.delivered, s.net[j].msg);
    assert OneConnection([Receive(i), Receive(j - 1)]);
  }

  lemma DeliveredAtOnce(s: System, j: nat)
    requires s.connected && j < |s.net| && IsNew(s, s.net[j]) && s.net[j].msg in s.delivered
    ensures !DeliversOnce(s)
  {
    hide NoneTwice, UnfilteredRun, UnfilteredFinal;
    PublishEffect(s, j);
    OneEvent(s, Receive(j));
    TwiceIn(s.delivered, s.net[j].msg);
    assert OneConnection([Receive(j)]);
  }

  lemma UnsafeReplay(s: System, replay: seq<Packet>)
    requires !SafeToReplay(s) && IsOutboundReplay(s, replay)
    ensures !DeliversOnce(s.(connected := true, net := replay))
  {
    hide AllPubRels, AllPublishes, DeliversOnce;
    var id :| id in s.store && s.store[id] in s.delivered && !(id in s.tracked && id !in s.pubrels);
    var n: nat :| n <= |replay| && AllPubRels(s, replay[..n]) && AllPublishes(s, replay[n..]);
    var j := ReplayedPublish(s, replay[n..], id);
    assert replay[n + j] == Publish(id, s.store[id]);
    var s' := s.(connected := true, net := replay);
    if id in s.pubrels {
      var i := ReplayedPubRel(s, replay[..n], id);
      assert replay[i] == PubRel(id);
      DeliveredAfterPubRel(s', i, n + j);
    } else {
      DeliveredAtOnce(s', n + j);
    }
  }

  // ---- whole runs ----

  lemma ReconnectSafeIff(s: System, replay: seq<Packet>)
    requires Numbered(s) && NoneTwice(s.delivered) && IsOutboundReplay(s, replay)
    ensures DeliversOnce(s.(connected := true, net := replay)) <==> SafeToReplay(s)
  {
    hide Numbered, NoneTwice, SafeToReplay, IsOutboundReplay, UnfilteredRun, UnfilteredFinal;
    var s' := s.(connected := true, net := replay);
    if SafeToReplay(s) {
      SafeReplayIsGuarded(s, replay);
      NumberedReconnect(s, replay);
      forall es | UnfilteredRun(s', es) && OneConnection(es) ensures NoneTwice(UnfilteredFinal(s', es).delivered) {
        GuardedRun(s', es);
      }
    } else {
      UnsafeReplay(s, replay);
    }
  }

  // Every reconnect of the run is safe.
  ghost predicate SafeReconnects(s: System, es: seq<Event>)
    requires UnfilteredRun(s, es)
    decreases |es|
  {
    es == [] || ((es[0].Reconnect? ==> SafeToReplay(s)) && SafeReconnects(UnfilteredNext(s, es[0]), es[1..]))
  }

  // After no reconnect of the run can a message be delivered twice on that connection.
  ghost predicate ConnectionsDeliverOnce(s: System, es: seq<Event>)
    requires UnfilteredRun(s, es)
    decreases |es|
  {
    es == [] ||
    var s' := UnfilteredNext(s, es[0]);
    (es[0].Reconnect? ==> DeliversOnce(s')) && ConnectionsDeliverOnce(s', es[1..])
  }

  lemma {:induction false} UnfilteredFrom(s: System, es: seq<Event>)
    requires Guarded(s) && Numbered(s) && UnfilteredRun(s, es)
    ensures ConnectionsDeliverOnce(s, es) <==> SafeReconnects(s, es)
    ensures SafeReconnects(s, es) ==> NoneTwice(UnfilteredFinal(s, es).delivered)
    decreases |es|
  {
    hide Guarded, Numbered, SafeToReplay, DeliversOnce, NoneTwice, IsOutboundReplay, Next, Enabled;
    GuardedMeans(s);
    if es != [] {
      NumberedStep(s, es[0]);
      if es[0].Reconnect? {
        ReconnectSafeIff(s, es[0].replay);
        if SafeToReplay(s) {
          SafeReplayIsGuarded(s, es[0].replay);
          UnfilteredFrom(UnfilteredNext(s, es[0]), es[1..]);
        }
      } else {
        GuardedStep(s, es[0]);
        UnfilteredFrom(UnfilteredNext(s, es[0]), es[1..]);
      }
    }
  }

  // In a run with the unfiltered replay, no connection can deliver a message twice exactly if
  // at each reconnect every stored publish delivered before is still tracked by the receiver
  // and its PUBREL no longer tracked by the sender.
  lemma UnfilteredSafeIff(es: seq<Event>)
    requires UnfilteredRun(INIT, es)
    ensures ConnectionsDeliverOnce(INIT, es) <==> SafeReconnects(INIT, es)
    ensures SafeReconnects(INIT, es) ==> NoneTwice(UnfilteredFinal(INIT, es).delivered)
  {
    hide UnfilteredRun, UnfilteredFinal, ConnectionsDeliverOnce, SafeReconnects;
    UnfilteredFrom(INIT, es);
  }

  // For instance, the first message is published and delivered, its PUBREC is lost, and the
  // replayed PUBREL makes the receiver forget the identifier before the PUBLISH comes again.
  lemma UnfilteredDeliversTwice() returns (es: seq<Event>)
    ensures UnfilteredRun(INIT, es) && UnfilteredFinal(INIT, es).delivered == [0, 0]
  {
    hide UnfilteredRun, UnfilteredFinal, IsOutboundReplay;
    var s1 := LostPubRec();
    BothReplayed(s1);
    var replay := [PubRel(1), Publish(1, 0)];
    var s2 := s1.(connected := true, net := replay);
    var s3 := TwoReceipts(s2);
    es := [Reconnect([]), PublishNew({}), Receive(0), Disconnect, Reconnect(replay), Receive(0), Receive(0)];
    assert es[..4] == [Reconnect([]), PublishNew({}), Receive(0), Disconnect];
    assert es[5..] == [Receive(0), Receive(0)];
    SevenEvents(es, s1, s2, s3);
  }

  lemma BothReplayed(s: System)
    requires s.pubrels == {1} && s.store == map[1 := 0]
    ensures IsOutboundReplay(s, [PubRel(1), Publish(1, 0)])
  {
    var replay := [PubRel(1), Publish(1, 0)];
    assert replay[..1] == [PubRel(1)] && replay[1..] == [Publish(1, 0)];
    assert replay[..1][0].id == 1 && replay[1..][0].id == 1;
    assert AllPubRels(s, replay[..1]);
  }

  // Connecting, publishing, and losing the connection after the delivery.
  lemma LostPubRec() returns (s: System)
    ensures UnfilteredRun(INIT, [Reconnect([]), PublishNew({}), Receive(0), Disconnect])
    ensures s == UnfilteredFinal(INIT, [Reconnect([]), PublishNew({}), Receive(0), Disconnect])
    ensures !s.connected && s.pubrels == {1} && s.store == map[1 := 0] && s.tracked == {1} && s.delivered == [0]
  {
    var s1 := INIT.(connected := true);
    FirstConnect();
    var s2 := PublishFirst(s1);
    var s3 := ReceiveFirst(s2);
    s := Next(s3, Disconnect);
    FourEvents(s1, s2, s3, s);
  }

  lemma FirstConnect()
    ensures ClientEnabled(INIT, Reconnect([])) && UnfilteredNext(INIT, Reconnect([])) == INIT.(connected := true)
  {
    var none: seq<Packet> := [];
    assert none[..0] == [] && none[0..] == [];
    assert AllPubRels(INIT, none[..0]) && AllPublishes(INIT, none[0..]);
  }

  lemma PublishFirst(s: System) returns (s': System)
    requires s == INIT.(connected := true)
    ensures Enabled(s, PublishNew({})) && s' == Next(s, PublishNew({}))
    ensures s' == System(true, map[1 := 0], {1}, 2, {}, [Publish(1, 0)], [1], map[1 := 0], [], [])
  {
    assert Cycle(1, 0) == 1 && Cycle(1, 1) == 2;
    assert Allocate(s, {}) == Some(0);
    PublishNewEffect(s, {});
    s' := Next(s, PublishNew({}));
  }

  lemma ReceiveFirst(s: System) returns (s': System)
    requires s.connected && s.net == [Publish(1, 0)] && s.tracked == {} && s.delivered == []
    ensures Enabled(s, Receive(0)) && s' == Next(s, Receive(0))
    ensures s'.connected && s'.store == s.store && s'.pubrels == s.pubrels && s'.tracked == {1} && s'.delivered == [0]
  {
    PublishEffect(s, 0);
    s' := Next(s, Receive(0));
  }

  lemma FourEvents(s1: System, s2: System, s3: System, s4: System)
    requires ClientEnabled(INIT, Reconnect([])) && s1 == UnfilteredNext(INIT, Reconnect([]))
    requires Enabled(s1, PublishNew({})) && s2 == Next(s1, PublishNew({}))
    requires Enabled(s2, Receive(0)) && Enabled(Next(s2, Receive(0)), Disconnect)
    requires s3 == Next(s2, Receive(0)) && s4 == Next(s3, Disconnect)
    ensures UnfilteredRun(INIT, [Reconnect([]), PublishNew({}), Receive(0), Disconnect])
    ensures UnfilteredFinal(INIT, [Reconnect([]), PublishNew({}), Receive(0), Disconnect]) == s4
  {
    hide Next, Enabled, IsOutboundReplay;
    var es := [Reconnect([]), PublishNew({}), Receive(0), Disconnect];
    TwoEvents(s2, Receive(0), Disconnect);
    assert es[1..][1..] == [Receive(0), Disconnect] && es[1..][0] == PublishNew({});
    assert UnfilteredRun(s1, es[1..]) && UnfilteredFinal(s1, es[1..]) == s4;
  }

  lemma TwoReceipts(s: System) returns (s': System)
    requires s.connected && s.net == [PubRel(1), Publish(1, 0)] && s.tracked == {1} && s.delivered == [0]
    ensures UnfilteredRun(s, [Receive(0), Receive(0)]) && s' == UnfilteredFinal(s, [Receive(0), Receive(0)])
    ensures s'.delivered == [0, 0]
  {
    hide UnfilteredRun, UnfilteredFinal;
    PubRelEffect(s, 0);
    var s1 := Next(s, Receive(0));
    assert s1.net[0] == Publish(1, 0);
    PublishEffect(s1, 0);
    TwoEvents(s, Receive(0), Receive(0));
    s' := UnfilteredFinal(s, [Receive(0), Receive(0)]);
  }

  lemma {:induction false} RunsOn(s: System, es: seq<Event>, fs: seq<Event>)
    requires UnfilteredRun(s, es) && UnfilteredRun(UnfilteredFinal(s, es), fs)
    ensures UnfilteredRun(s, es + fs) && UnfilteredFinal(s, es + fs) == UnfilteredFinal(UnfilteredFinal(s, es), fs)
    decreases |es|
  {
    hide UnfilteredNext, ClientEnabled;
    if es == [] {
      assert es + fs == fs;
    } else {
      RunsOn(UnfilteredNext(s, es[0]), es[1..], fs);
      assert (es + fs)[1..] == es[1..] + fs;
    }
  }

  lemma SevenEvents(es: seq<Event>, s1: System, s2: System, s3: System)
    requires es == [Reconnect([]), PublishNew({}), Receive(0), Disconnect,
                    Reconnect([PubRel(1), Publish(1, 0)]), Receive(0), Receive(0)]
    requires UnfilteredRun(INIT, es[..4]) && UnfilteredFinal(INIT, es[..4]) == s1
    requires ClientEnabled(s1, es[4]) && UnfilteredNext(s1, es[4]) == s2
    requires UnfilteredRun(s2, es[5..]) && UnfilteredFinal(s2, es[5..]) == s3
    ensures UnfilteredRun(INIT, es) && UnfilteredFinal(INIT, es) == s3
  {
    hide ClientEnabled, UnfilteredNext;
    assert es[4..][1..] == es[5..] && es[4..][0] == es[4];
    assert UnfilteredRun(s1, es[4..]) && UnfilteredFinal(s1, es[4..]) == s3;
    assert es[..4] + es[4..] == es;
    RunsOn(INIT, es[..4], es[4..]);
  }
}
