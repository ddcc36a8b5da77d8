/**
 The QoS 2 handlers of crates/mqtt5-protocol/src/qos2.rs: each answers one event with the
 list of actions to perform, given what the session knows about the packet identifier.
 */
module QoS2 {
  import opened PacketIds

  type ReasonCode = c: int | 0 <= c < 256

  const SUCCESS: ReasonCode := 0x00
  const PACKET_IDENTIFIER_NOT_FOUND: ReasonCode := 0x92

  datatype Action =
    | SendPubRec(id: PacketId, code: ReasonCode)
    | SendPubRel(id: PacketId)
    | SendPubComp(id: PacketId, code: ReasonCode)
    | TrackOutgoingPubRec(id: PacketId)
    | TrackOutgoingPubRel(id: PacketId)
    | RemoveOutgoingPubRel(id: PacketId)
    | TrackIncomingPubRec(id: PacketId)
    | RemoveIncomingPubRec(id: PacketId)
    | DeliverMessage(id: PacketId)
    | CompleteFlow(id: PacketId)
    | ErrorFlow(id: PacketId, code: ReasonCode)

  function HandleOutgoingPublish(id: PacketId): seq<Action> {
    [TrackOutgoingPubRel(id)]
  }

  function HandleIncomingPubRec(id: PacketId, code: ReasonCode, hasPendingPublish: bool): seq<Action> {
    if !hasPendingPublish then
      [ErrorFlow(id, PACKET_IDENTIFIER_NOT_FOUND)]
    else if code != SUCCESS then
      [ErrorFlow(id, code)]
    else
      [SendPubRel(id), TrackOutgoingPubRel(id)]
  }

  function HandleIncomingPubComp(id: PacketId, code: ReasonCode, hasPendingPubRel: bool): seq<Action> {
    if !hasPendingPubRel then
      []
    else
      [RemoveOutgoingPubRel(id), if code == SUCCESS then CompleteFlow(id) else ErrorFlow(id, code)]
  }

  function HandleIncomingPublish(id: PacketId, isDuplicate: bool): seq<Action> {
    if isDuplicate then
      [SendPubRec(id, SUCCESS)]
    else
      [DeliverMessage(id), SendPubRec(id, SUCCESS), TrackIncomingPubRec(id)]
  }

  function HandleIncomingPubRel(id: PacketId, hasPendingPubRec: bool): seq<Action> {
    if hasPendingPubRec then
      [RemoveIncomingPubRec(id), SendPubComp(id, SUCCESS)]
    else
      [SendPubComp(id, PACKET_IDENTIFIER_NOT_FOUND)]
  }

  // Section 4.3.3 of MQTT 5.0 answers a PUBREC with PUBREL whenever its code is below 0x80.
  predicate StandardAnswersPubRel(code: ReasonCode, hasPendingPublish: bool) {
    hasPendingPublish && code < 0x80
  }

  // The handler does so for Success only: it departs from the standard exactly on the
  // non-zero codes below 0x80, such as 0x10 (no matching subscribers).
  lemma PubRecFollowsStandardIff(id: PacketId, code: ReasonCode, hasPendingPublish: bool)
    ensures (SendPubRel(id) in HandleIncomingPubRec(id, code, hasPendingPublish) <==>
             StandardAnswersPubRel(code, hasPendingPublish))
       <==> !(hasPendingPublish && 0 < code < 0x80)
    ensures SendPubRel(id) !in HandleIncomingPubRec(id, 0x10, true) && StandardAnswersPubRel(0x10, true)
    ensures SendPubRel(id) !in HandleIncomingPubRec(id, code, hasPendingPublish) ==>
              HandleIncomingPubRec(id, code, hasPendingPublish) == [ErrorFlow(id, if hasPendingPublish then code else 0x92)]
  {
    var actions := HandleIncomingPubRec(id, code, hasPendingPublish);
    if hasPendingPublish && code == SUCCESS {
      assert actions[0] == SendPubRel(id);
    }
  }
}

/**
 The receiver alone, against a peer that may send any PUBLISH and PUBREL in any order.
 Its session is the set of identifiers it tracks; the log holds every action performed.
 */
module QoS2Receiver {
  import opened PacketIds
  import opened QoS2

  datatype Input = Publish(id: PacketId) | PubRel(id: PacketId)

  datatype Receiver = Receiver(tracked: set<PacketId>, log: seq<Action>)

  const FRESH := Receiver({}, [])

  function Answer(r: Receiver, i: Input): seq<Action> {
    match i
    case Publish(id) => HandleIncomingPublish(id, id in r.tracked)
    case PubRel(id) => HandleIncomingPubRel(id, id in r.tracked)
  }

  // Performing an action: Track and Remove act on the tracked set, every action is logged.
  function Perform(r: Receiver, a: Action): Receiver {
    var logged := r.(log := r.log + [a]);
    match a
    case TrackIncomingPubRec(id) => logged.(tracked := r.tracked + {id})
    case RemoveIncomingPubRec(id) => logged.(tracked := r.tracked - {id})
    case _ => logged
  }

  function PerformAll(r: Receiver, actions: seq<Action>): Receiver
    decreases |actions|
  {
    if actions == [] then r else PerformAll(Perform(r, actions[0]), actions[1..])
  }

  function Consume(r: Receiver, inputs: seq<Input>): Receiver
    decreases |inputs|
  {
    if inputs == [] then r else Consume(PerformAll(r, Answer(r, inputs[0])), inputs[1..])
  }

  // The deliveries and successful completions of one identifier, in order: true is a delivery.
  function History(log: seq<Action>, id: PacketId): seq<bool> {
    if log == [] then []
    else
      var before := History(log[..|log| - 1], id);
      var a := log[|log| - 1];
      if a == DeliverMessage(id) then before + [true]
      else if a == SendPubComp(id, SUCCESS) then before + [false]
      else before
  }

  lemma HistoryAppend(log: seq<Action>, a: Action, id: PacketId)
    ensures History(log + [a], id) ==
            History(log, id) + (if a == DeliverMessage(id) then [true]
                                else if a == SendPubComp(id, SUCCESS) then [false] else [])
  {
    assert (log + [a])[..|log|] == log;
  }

  // The history of an identifier alternates, starting with a delivery, and ends with one
  // exactly while the identifier is tracked.
  ghost predicate Alternates(r: Receiver, id: PacketId) {
    var h := History(r.log, id);
    && (forall k :: 0 <= k < |h| ==> h[k] == (k % 2 == 0))
    && (|h| % 2 == 1 <==> id in r.tracked)
  }

  // What answering one input does, as one update.
  function Effect(r: Receiver, i: Input): Receiver {
    match i
    case Publish(id) =>
      if id in r.tracked then Receiver(r.tracked, r.log + [SendPubRec(id, SUCCESS)])
      else Receiver(r.tracked + {id},
                    r.log + [DeliverMessage(id)] + [SendPubRec(id, SUCCESS)] + [TrackIncomingPubRec(id)])
    case PubRel(id) =>
      if id in r.tracked then
        Receiver(r.tracked - {id}, r.log + [RemoveIncomingPubRec(id)] + [SendPubComp(id, SUCCESS)])
      else Receiver(r.tracked, r.log + [SendPubComp(id, PACKET_IDENTIFIER_NOT_FOUND)])
  }

  lemma AnswerEffect(r: Receiver, i: Input)
    ensures PerformAll(r, Answer(r, i)) == Effect(r, i)
  {
    var actions := Answer(r, i);
    var r1 := Perform(r, actions[0]);
    if |actions| == 3 {
      assert actions[1..][0] == actions[1] && actions[1..][1..] == [actions[2]];
      var r2 := Perform(r1, actions[1]);
      assert PerformAll(r2, [actions[2]]) == Perform(r2, actions[2]);
      assert PerformAll(r1, actions[1..]) == Perform(r2, actions[2]);
    } else if |actions| == 2 {
      assert actions[1..] == [actions[1]];
      assert PerformAll(r1, [actions[1]]) == Perform(r1, actions[1]);
    }
  }

  lemma EffectHistory(r: Receiver, i: Input, id: PacketId)
    ensures History(Effect(r, i).log, id) ==
            History(r.log, id) + (if i == Publish(id) && id !in r.tracked then [true]
                                  else if i == PubRel(id) && id in r.tracked then [false] else [])
  {
    if i.Publish? && i.id !in r.tracked {
      var log1 := r.log + [DeliverMessage(i.id)];
      var log2 := log1 + [SendPubRec(i.id, SUCCESS)];
      HistoryAppend(r.log, DeliverMessage(i.id), id);
      HistoryAppend(log1, SendPubRec(i.id, SUCCESS), id);
      HistoryAppend(log2, TrackIncomingPubRec(i.id), id);
    } else if i.PubRel? && i.id in r.tracked {
      HistoryAppend(r.log, RemoveIncomingPubRec(i.id), id);
      HistoryAppend(r.log + [RemoveIncomingPubRec(i.id)], SendPubComp(i.id, SUCCESS), id);
    } else {
      HistoryAppend(r.log, Answer(r, i)[0], id);
    }
  }

  lemma AlternatesStep(r: Receiver, i: Input, id: PacketId)
    requires Alternates(r, id)
    ensures Alternates(PerformAll(r, Answer(r, i)), id)
  {
    hide PerformAll, Answer, History;
    AnswerEffect(r, i);
    EffectHistory(r, i, id);
  }

  lemma {:induction false} AlternatesRun(r: Receiver, inputs: seq<Input>, id: PacketId)
    requires Alternates(r, id)
    ensures Alternates(Consume(r, inputs), id)
    decreases |inputs|
  {
    if inputs != [] {
      AlternatesStep(r, inputs[0], id);
      AlternatesRun(PerformAll(r, Answer(r, inputs[0])), inputs[1..], id);
    }
  }

  function Count(h: seq<bool>, b: bool): nat {
    if h == [] then 0 else Count(h[..|h| - 1], b) + (if h[|h| - 1] == b then 1 else 0)
  }

  lemma {:induction false} AlternatingCount(h: seq<bool>)
    requires forall k :: 0 <= k < |h| ==> h[k] == (k % 2 == 0)
    ensures Count(h, true) == Count(h, false) + |h| % 2
  {
    if h != [] {
      AlternatingCount(h[..|h| - 1]);
    }
  }

  // Conservation: whatever the peer sends, an identifier has been delivered once more than it
  // was completed while it is tracked, and equally often otherwise; and between two deliveries
  // there is always a completion.
  lemma ReceiverConservation(inputs: seq<Input>, id: PacketId)
    ensures
      var r := Consume(FRESH, inputs);
      var h := History(r.log, id);
      && Count(h, true) == Count(h, false) + (if id in r.tracked then 1 else 0)
      && forall i, j :: 0 <= i < j < |h| && h[i] && h[j] ==> exists k :: i < k < j && !h[k]
  {
    AlternatesRun(FRESH, inputs, id);
    var h := History(Consume(FRESH, inputs).log, id);
    AlternatingCount(h);
    forall i, j | 0 <= i < j < |h| && h[i] && h[j]
      ensures exists k :: i < k < j && !h[k]
    {
      assert !h[i + 1];
    }
  }
}

/**
 The sender alone, against a peer that may send any PUBREC and PUBCOMP in any order, and a
 session that may answer any PUBREC as pending or not. Its own state is the set of identifiers
 whose PUBREL it tracks; the log holds every action performed.
 */
module QoS2Sender {
  import opened PacketIds
  import opened QoS2

  datatype Input =
    | Start(id: PacketId)
    | PubRec(id: PacketId, code: ReasonCode, pending: bool)
    | PubComp(id: PacketId, code: ReasonCode)

  datatype Sender = Sender(tracked: set<PacketId>, log: seq<Action>)

  const FRESH := Sender({}, [])

  function Answer(s: Sender, i: Input): seq<Action> {
    match i
    case Start(id) => HandleOutgoingPublish(id)
    case PubRec(id, code, pending) => HandleIncomingPubRec(id, code, pending)
    case PubComp(id, code) => HandleIncomingPubComp(id, code, id in s.tracked)
  }

  function Perform(s: Sender, a: Action): Sender {
    var logged := s.(log := s.log + [a]);
    match a
    case TrackOutgoingPubRel(id) => logged.(tracked := s.tracked + {id})
    case RemoveOutgoingPubRel(id) => logged.(tracked := s.tracked - {id})
    case _ => logged
  }

  function PerformAll(s: Sender, actions: seq<Action>): Sender
    decreases |actions|
  {
    if actions == [] then s else PerformAll(Perform(s, actions[0]), actions[1..])
  }

  // The sender after these inputs.
  function After(inputs: seq<Input>): Sender {
    if inputs == [] then FRESH
    else
      var s := After(inputs[..|inputs| - 1]);
      PerformAll(s, Answer(s, inputs[|inputs| - 1]))
  }

  // ---- what it should have done, read off the inputs alone ----

  // The input starts waiting for the PUBCOMP of id: a publish, or a PUBREC that accepts one.
  predicate Opens(i: Input, id: PacketId) {
    i == Start(id) || i == PubRec(id, 0x00, true)
  }

  // Some input opened id and no PUBCOMP for id came later.
  predicate Open(inputs: seq<Input>, id: PacketId) {
    exists k :: 0 <= k < |inputs| && Opens(inputs[k], id) && NoPubComp(inputs[k + 1..], id)
  }

  predicate NoPubComp(inputs: seq<Input>, id: PacketId) {
    forall k :: 0 <= k < |inputs| && inputs[k].PubComp? ==> inputs[k].id != id
  }

  // What is reported of one identifier, and sent for it.
  datatype Mark = Completed | Failed(code: int) | SentPubRel

  // A PUBCOMP closes an open flow, with its own code. A PUBREC without a pending publish fails
  // with 0x92 (packet identifier not found), one with a code fails with that code, and any
  // other sends a PUBREL. Nothing else is reported or sent.
  function Due(before: seq<Input>, i: Input, id: PacketId): seq<Mark> {
    if i.id != id then []
    else match i
         case Start(_) => []
         case PubComp(_, code) =>
           if !Open(before, id) then [] else if code == 0x00 then [Completed] else [Failed(code)]
         case PubRec(_, code, pending) =>
           if !pending then [Failed(0x92)] else if code == 0x00 then [SentPubRel] else [Failed(code)]
  }

  function DueAll(inputs: seq<Input>, id: PacketId): seq<Mark> {
    if inputs == [] then []
    else
      var front := inputs[..|inputs| - 1];
      DueAll(front, id) + Due(front, inputs[|inputs| - 1], id)
  }

  // ---- and what it did, read off the log ----

  function MarkOf(a: Action, id: PacketId): seq<Mark> {
    if a == CompleteFlow(id) then [Completed]
    else if a == SendPubRel(id) then [SentPubRel]
    else if a.ErrorFlow? && a.id == id then [Failed(a.code)]
    else []
  }

  function Marks(log: seq<Action>, id: PacketId): seq<Mark> {
    if log == [] then [] else Marks(log[..|log| - 1], id) + MarkOf(log[|log| - 1], id)
  }

  lemma MarksAppend(log: seq<Action>, a: Action, id: PacketId)
    ensures Marks(log + [a], id) == Marks(log, id) + MarkOf(a, id)
  {
    assert (log + [a])[..|log|] == log;
  }

  lemma OpenAfter(inputs: seq<Input>, i: Input, id: PacketId)
    ensures Open(inputs + [i], id) <==>
            Opens(i, id) || (Open(inputs, id) && !(i.PubComp? && i.id == id))
  {
    var more := inputs + [i];
    if Opens(i, id) {
      assert more[|inputs|] == i && NoPubComp(more[|inputs| + 1..], id);
    } else if Open(more, id) {
      var k :| 0 <= k < |more| && Opens(more[k], id) && NoPubComp(more[k + 1..], id);
      var rest, longer := inputs[k + 1..], more[k + 1..];
      assert longer == rest + [i] && longer[|rest|] == i;
      assert forall j :: 0 <= j < |rest| ==> longer[j] == rest[j];
    } else if Open(inputs, id) {
      var k :| 0 <= k < |inputs| && Opens(inputs[k], id) && NoPubComp(inputs[k + 1..], id);
      assert more[k] == inputs[k] && more[k + 1..] == inputs[k + 1..] + [i];
    }
  }

  // The answer to one input, performed.
  lemma AnswerEffect(s: Sender, i: Input, id: PacketId)
    ensures
      var s' := PerformAll(s, Answer(s, i));
      && (id in s'.tracked <==> Opens(i, id) || (id in s.tracked && !(i.PubComp? && i.id == id)))
      && Marks(s'.log, id) ==
         Marks(s.log, id) +
         if i.id != id then []
         else match i
              case Start(_) => []
              case PubComp(_, code) =>
                if id !in s.tracked then [] else if code == 0x00 then [Completed] else [Failed(code)]
              case PubRec(_, code, pending) =>
                if !pending then [Failed(0x92)] else if code == 0x00 then [SentPubRel] else [Failed(code)]
  {
    hide Marks;
    var actions := Answer(s, i);
    if |actions| == 1 {
      assert PerformAll(s, actions) == Perform(s, actions[0]) by {
        assert PerformAll(Perform(s, actions[0]), []) == Perform(s, actions[0]);
      }
      MarksAppend(s.log, actions[0], id);
    } else if |actions| == 2 {
      var s1 := Perform(s, actions[0]);
      assert actions[1..] == [actions[1]];
      assert PerformAll(s1, [actions[1]]) == Perform(s1, actions[1]);
      MarksAppend(s.log, actions[0], id);
      MarksAppend(s1.log, actions[1], id);
    }
  }

  // Whatever the peer sends, the sender tracks exactly the open identifiers, and of each it
  // reports and sends exactly what is due, in order: a flow completes only by a PUBCOMP with
  // Success while it is open, and a refused one fails with the code received.
  lemma {:induction false} SenderReports(inputs: seq<Input>, id: PacketId)
    ensures id in After(inputs).tracked <==> Open(inputs, id)
    ensures Marks(After(inputs).log, id) == DueAll(inputs, id)
  {
    hide PerformAll, Answer, Marks, Open;
    if inputs == [] {
      NothingYet(id);
    } else {
      var front, last := inputs[..|inputs| - 1], inputs[|inputs| - 1];
      SenderReports(front, id);
      AnswerEffect(After(front), last, id);
      assert inputs == front + [last];
      OpenAfter(front, last, id);
    }
  }

  lemma NothingYet(id: PacketId)
    ensures !Open([], id) && Marks([], id) == []
  {
  }

  // For instance, a message refused with 0x97 (quota exceeded) is reported as failed with it,
  // and nothing is sent.
  lemma RefusedIsReported()
    ensures Marks(After([Start(5), PubRec(5, 0x97, true)]).log, 5) == [Failed(0x97)]
  {
    var inputs := [Start(5), PubRec(5, 0x97, true)];
    SenderReports(inputs, 5);
    assert inputs[..1] == [Start(5)] && [Start(5)][..0] == [];
    assert DueAll([Start(5)], 5) == DueAll([], 5) + Due([], Start(5), 5);
  }
}
