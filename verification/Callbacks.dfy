/**
 The callback index of crates/mqtt5/src/callback.rs: a hash map for filters without
 wildcards, a list for the others, and a registry from which entries can be restored.
 Each method is taken as one atomic step; a callback is an opaque handle.
 */
module Callbacks {
  import opened Options
  import opened Bytes
  import opened TopicMatching

  type Callback = nat

  datatype Entry = Entry(id: nat, callback: Callback, filter: seq<byte>)

  datatype Index = Index(
    exact: map<seq<byte>, seq<Entry>>,
    wildcards: seq<Entry>,
    registry: map<nat, Entry>,
    nextId: nat)

  const EMPTY := Index(map[], [], map[], 1)

  // ---- the operations on values ----

  function EntriesAt(ix: Index, key: seq<byte>): seq<Entry> {
    if key in ix.exact then ix.exact[key] else []
  }

  function Insert(ix: Index, e: Entry): Index {
    var key := StripShared(e.filter);
    if !WildcardFree(key) then ix.(wildcards := ix.wildcards + [e])
    else ix.(exact := ix.exact[key := EntriesAt(ix, key) + [e]])
  }

  function Register(ix: Index, filter: seq<byte>, callback: Callback): Index {
    var e := Entry(ix.nextId, callback, filter);
    Insert(ix.(registry := ix.registry[ix.nextId := e], nextId := ix.nextId + 1), e)
  }

  // The list of the index that an entry with this filter belongs to.
  function Slot(ix: Index, filter: seq<byte>): seq<Entry> {
    var key := StripShared(filter);
    if WildcardFree(key) then EntriesAt(ix, key) else ix.wildcards
  }

  predicate HasId(es: seq<Entry>, id: nat) {
    exists k :: 0 <= k < |es| && es[k].id == id
  }

  function Restore(ix: Index, id: nat): Index {
    if id in ix.registry && !HasId(Slot(ix, ix.registry[id].filter), id) then Insert(ix, ix.registry[id]) else ix
  }

  function Without(es: seq<Entry>, filter: seq<byte>): seq<Entry> {
    if es == [] then []
    else Without(es[..|es| - 1], filter) + (if es[|es| - 1].filter != filter then [es[|es| - 1]] else [])
  }

  function KeptEntries(registry: map<nat, Entry>, filter: seq<byte>): map<nat, Entry> {
    map id | id in registry && registry[id].filter != filter :: registry[id]
  }

  function Unregister(ix: Index, filter: seq<byte>): Index {
    var key := StripShared(filter);
    var kept := ix.(registry := KeptEntries(ix.registry, filter));
    if WildcardFree(key) then kept.(exact := ix.exact - {key})
    else kept.(wildcards := Without(ix.wildcards, filter))
  }

  function Clear(ix: Index): Index {
    ix.(exact := map[], wildcards := [], registry := map[])
  }

  function Matching(es: seq<Entry>, topic: seq<byte>): seq<Entry> {
    if es == [] then []
    else
      var last := es[|es| - 1];
      Matching(es[..|es| - 1], topic) + (if Matches(topic, StripShared(last.filter)) then [last] else [])
  }

  // The entries a message on this topic is dispatched to: a map lookup, then a scan.
  function Selected(ix: Index, topic: seq<byte>): seq<Entry> {
    EntriesAt(ix, topic) + Matching(ix.wildcards, topic)
  }

  // Some entry is registered under this filter, or the index holds a list for the key without
  // wildcards that it strips to.
  predicate Removable(ix: Index, filter: seq<byte>) {
    || (exists id :: id in ix.registry && ix.registry[id].filter == filter)
    || (WildcardFree(StripShared(filter)) && StripShared(filter) in ix.exact)
  }

  // ---- the manager ----

  class CallbackManager {
    var exact: map<seq<byte>, seq<Entry>>
    var wildcards: seq<Entry>
    var registry: map<nat, Entry>
    var nextId: nat

    ghost function View(): Index
      reads this
    {
      Index(exact, wildcards, registry, nextId)
    }

    constructor ()
      ensures View() == EMPTY && Valid(View())
    {
      exact, wildcards, registry, nextId := map[], [], map[], 1;
    }

    method RegisterWithId(filter: seq<byte>, callback: Callback) returns (id: nat)
      requires Valid(View())
      modifies this
      ensures id == old(nextId) && id !in old(registry)
      ensures View() == Register(old(View()), filter, callback) && Valid(View())
    {
      RegisterKeeps(View(), filter, callback);
      id := nextId;
      nextId := nextId + 1;
      var entry := Entry(id, callback, filter);
      registry := registry[id := entry];
      RegisterInternal(filter, entry);
    }

    method RegisterInternal(filter: seq<byte>, entry: Entry)
      requires filter == entry.filter
      modifies this`exact, this`wildcards
      ensures View() == Insert(old(View()), entry)
    {
      var actual := StripShared(filter);
      if PLUS in actual || HASH in actual {
        wildcards := wildcards + [entry];
      } else {
        var entries := if actual in exact then exact[actual] else [];
        exact := exact[actual := entries + [entry]];
      }
    }

    method RestoreCallback(id: nat) returns (found: bool)
      requires Valid(View())
      modifies this
      ensures found <==> id in old(registry)
      ensures View() == Restore(old(View()), id) && Valid(View())
    {
      RestoreKeeps(View(), id);
      if id in registry {
        var entry := registry[id];
        var actual := StripShared(entry.filter);
        var alreadyRegistered: bool;
        if PLUS in actual || HASH in actual {
          alreadyRegistered := AnyWithId(wildcards, id);
        } else if actual in exact {
          alreadyRegistered := AnyWithId(exact[actual], id);
        } else {
          alreadyRegistered := false;
        }
        if !alreadyRegistered {
          RegisterInternal(entry.filter, entry);
        }
        return true;
      }
      return false;
    }

    method UnregisterFilter(filter: seq<byte>) returns (removed: bool)
      requires Valid(View())
      modifies this
      ensures removed <==> Removable(old(View()), filter)
      ensures View() == Unregister(old(View()), filter) && Valid(View())
    {
      hide StripShared, Valid, KeptEntries, Without;
      UnregisterKeeps(View(), filter);
      WildcardsAreRegistered(View(), filter);
      var actual := StripShared(filter);
      var before := registry;
      registry := KeptEntries(registry, filter);
      KeptSize(before, filter);
      var removedFromRegistry := |registry| < |before|;
      var removedFromCallbacks;
      if PLUS in actual || HASH in actual {
        var kept := Retain(wildcards, filter);
        WithoutShorter(wildcards, filter);
        removedFromCallbacks := |kept| < |wildcards|;
        wildcards := kept;
      } else {
        removedFromCallbacks := actual in exact;
        exact := exact - {actual};
      }
      removed := removedFromRegistry || removedFromCallbacks;
    }

    // The callbacks to call, in order.
    method Dispatch(topic: seq<byte>) returns (callbacks: seq<Callback>)
      ensures callbacks == CallbacksOf(Selected(View(), topic))
    {
      hide Matches, StripShared, CallbacksOf;
      callbacks := [];
      NoCallbacks();
      if topic in exact {
        var entries := exact[topic];
        assert entries[..0] == [];
        for i := 0 to |entries|
          invariant callbacks == CallbacksOf(entries[..i])
        {
          assert entries[..i + 1] == entries[..i] + [entries[i]];
          CallbacksAppend(entries[..i], entries[i]);
          callbacks := callbacks + [entries[i].callback];
        }
        assert entries[..|entries|] == entries;
      }
      ghost var first := EntriesAt(View(), topic);
      assert first + Matching(wildcards[..0], topic) == first;
      for i := 0 to |wildcards|
        invariant callbacks == CallbacksOf(first + Matching(wildcards[..i], topic))
      {
        var entry := wildcards[i];
        MatchingNext(wildcards, i, topic, first);
        CallbacksAppend(first + Matching(wildcards[..i], topic), entry);
        if Matches(topic, StripShared(entry.filter)) {
          callbacks := callbacks + [entry.callback];
        }
      }
      assert wildcards[..|wildcards|] == wildcards;
    }

    method ClearAll()
      modifies this
      ensures View() == Clear(old(View())) && Valid(View())
    {
      exact, wildcards, registry := map[], [], map[];
    }
  }

  function CallbacksOf(es: seq<Entry>): seq<Callback> {
    seq(|es|, i requires 0 <= i < |es| => es[i].callback)
  }

  lemma NoCallbacks()
    ensures CallbacksOf([]) == []
  {
  }

  lemma CallbacksAppend(es: seq<Entry>, e: Entry)
    ensures CallbacksOf(es + [e]) == CallbacksOf(es) + [e.callback]
  {
  }

  lemma MatchingNext(es: seq<Entry>, i: nat, topic: seq<byte>, first: seq<Entry>)
    requires i < |es|
    ensures
      var sofar := first + Matching(es[..i], topic);
      first + Matching(es[..i + 1], topic) ==
      if Matches(topic, StripShared(es[i].filter)) then sofar + [es[i]] else sofar
  {
    hide Matches, StripShared;
    assert es[..i + 1][..i] == es[..i];
  }

  method AnyWithId(es: seq<Entry>, id: nat) returns (any: bool)
    ensures any <==> HasId(es, id)
  {
    for i := 0 to |es|
      invariant !HasId(es[..i], id)
    {
      if es[i].id == id {
        return true;
      }
    }
    return false;
  }

  method Retain(es: seq<Entry>, filter: seq<byte>) returns (kept: seq<Entry>)
    ensures kept == Without(es, filter)
  {
    kept := [];
    for i := 0 to |es|
      invariant kept == Without(es[..i], filter)
    {
      assert es[..i + 1][..i] == es[..i];
      if es[i].filter != filter {
        kept := kept + [es[i]];
      }
    }
    assert es[..|es|] == es;
  }

  // ---- the invariant of every reachable state ----

  predicate DistinctIds(es: seq<Entry>) {
    forall j, k :: 0 <= j < k < |es| ==> es[j].id != es[k].id
  }

  predicate Registered(ix: Index, e: Entry) {
    e.id in ix.registry && ix.registry[e.id] == e
  }

  // Every indexed entry is registered with the same data, sits in the slot of its stripped
  // filter, and occurs once in it.
  predicate Valid(ix: Index) {
    && (forall id :: id in ix.registry ==> ix.registry[id].id == id < ix.nextId)
    && (forall e :: e in ix.wildcards ==> Registered(ix, e) && !WildcardFree(StripShared(e.filter)))
    && DistinctIds(ix.wildcards)
    && (forall key :: key in ix.exact ==> WildcardFree(key) && DistinctIds(ix.exact[key]))
    && (forall key, e :: key in ix.exact && e in ix.exact[key] ==> Registered(ix, e) && StripShared(e.filter) == key)
  }

  predicate Indexed(ix: Index, e: Entry) {
    e in Slot(ix, e.filter)
  }

  lemma InsertKeeps(ix: Index, e: Entry)
    requires Valid(ix) && Registered(ix, e) && !HasId(Slot(ix, e.filter), e.id)
    ensures Valid(Insert(ix, e))
  {
    hide StripShared, WildcardFree;
    var ix', key, slot := Insert(ix, e), StripShared(e.filter), Slot(ix, e.filter);
    DistinctAppend(slot, e);
    forall x | x in slot + [e] ensures x in slot || x == e {
    }
    if WildcardFree(key) {
      assert ix'.exact[key] == slot + [e];
      forall x | x in slot ensures Registered(ix, x) && StripShared(x.filter) == key {
        assert key in ix.exact;
      }
    }
  }

  lemma DistinctAppend(es: seq<Entry>, e: Entry)
    requires DistinctIds(es) && !HasId(es, e.id)
    ensures DistinctIds(es + [e])
  {
  }

  lemma RegisterKeeps(ix: Index, filter: seq<byte>, callback: Callback)
    requires Valid(ix)
    ensures Valid(Register(ix, filter, callback)) && ix.nextId !in ix.registry
  {
    hide StripShared, WildcardFree;
    var e := Entry(ix.nextId, callback, filter);
    RegistryGrows(ix, e);
    IdsBelow(ix, filter);
    InsertKeeps(ix.(registry := ix.registry[ix.nextId := e], nextId := ix.nextId + 1), e);
  }

  lemma RegistryGrows(ix: Index, e: Entry)
    requires Valid(ix) && e.id == ix.nextId
    ensures Valid(ix.(registry := ix.registry[e.id := e], nextId := ix.nextId + 1))
  {
    hide StripShared, WildcardFree;
    var ix1 := ix.(registry := ix.registry[e.id := e], nextId := ix.nextId + 1);
    assert forall x :: Registered(ix, x) ==> Registered(ix1, x);
  }

  lemma IdsBelow(ix: Index, filter: seq<byte>)
    requires Valid(ix)
    ensures !HasId(Slot(ix, filter), ix.nextId)
  {
    hide StripShared, WildcardFree;
    var slot := Slot(ix, filter);
    forall k | 0 <= k < |slot| ensures slot[k].id < ix.nextId {
      assert slot[k] in slot && Registered(ix, slot[k]);
    }
  }

  lemma RestoreKeeps(ix: Index, id: nat)
    requires Valid(ix)
    ensures Valid(Restore(ix, id))
  {
    hide StripShared, WildcardFree;
    if id in ix.registry && !HasId(Slot(ix, ix.registry[id].filter), id) {
      InsertKeeps(ix, ix.registry[id]);
    }
  }

  lemma {:induction false} WithoutMeaning(es: seq<Entry>, filter: seq<byte>)
    ensures forall e :: e in Without(es, filter) <==> e in es && e.filter != filter
    ensures DistinctIds(es) ==> DistinctIds(Without(es, filter))
  {
    if es != [] {
      var front, last := es[..|es| - 1], es[|es| - 1];
      WithoutMeaning(front, filter);
      assert es == front + [last];
      if DistinctIds(es) {
        var w := Without(front, filter);
        assert forall k :: 0 <= k < |w| ==> w[k] in w && w[k] in front;
        assert forall x :: x in front ==> x.id != last.id;
      }
    }
  }

  lemma WildcardsAreRegistered(ix: Index, filter: seq<byte>)
    requires Valid(ix)
    ensures (exists k :: 0 <= k < |ix.wildcards| && ix.wildcards[k].filter == filter) ==>
              exists id :: id in ix.registry && ix.registry[id].filter == filter
  {
    hide StripShared, WildcardFree;
    if k :| 0 <= k < |ix.wildcards| && ix.wildcards[k].filter == filter {
      assert ix.wildcards[k] in ix.wildcards;
      assert ix.wildcards[k].id in ix.registry;
    }
  }

  lemma {:induction false} WithoutShorter(es: seq<Entry>, filter: seq<byte>)
    ensures |Without(es, filter)| <= |es|
    ensures |Without(es, filter)| < |es| <==> exists k :: 0 <= k < |es| && es[k].filter == filter
  {
    if es != [] {
      WithoutShorter(es[..|es| - 1], filter);
    }
  }

  lemma KeptSize(registry: map<nat, Entry>, filter: seq<byte>)
    ensures |KeptEntries(registry, filter)| < |registry| <==> exists id :: id in registry && registry[id].filter == filter
  {
    var before, after := registry.Keys, KeptEntries(registry, filter).Keys;
    if id :| id in registry && registry[id].filter == filter {
      SubsetSize(after, before - {id});
    } else {
      assert after == before;
    }
  }

  lemma {:induction false} SubsetSize(a: set<nat>, b: set<nat>)
    requires a <= b
    ensures |a| <= |b|
    decreases a
  {
    if x :| x in a {
      SubsetSize(a - {x}, b - {x});
    }
  }

  lemma UnregisterKeeps(ix: Index, filter: seq<byte>)
    requires Valid(ix)
    ensures Valid(Unregister(ix, filter))
  {
    hide StripShared, WildcardFree;
    var ix' := Unregister(ix, filter);
    WithoutMeaning(ix.wildcards, filter);
    assert forall e :: Registered(ix, e) && e.filter != filter ==> Registered(ix', e);
    forall e | e in ix'.wildcards ensures e in ix.wildcards && e.filter != filter {
    }
    forall k, e | k in ix'.exact && e in ix'.exact[k] ensures Registered(ix', e) {
      assert e.filter != filter;
    }
  }

  datatype Op =
    | DoRegister(filter: seq<byte>, callback: Callback)
    | DoRestore(id: nat)
    | DoUnregister(filter: seq<byte>)
    | DoClear

  function Apply(ix: Index, op: Op): Index {
    match op
    case DoRegister(filter, callback) => Register(ix, filter, callback)
    case DoRestore(id) => Restore(ix, id)
    case DoUnregister(filter) => Unregister(ix, filter)
    case DoClear => Clear(ix)
  }

  function ApplyAll(ix: Index, ops: seq<Op>): Index
    decreases |ops|
  {
    if ops == [] then ix else ApplyAll(Apply(ix, ops[0]), ops[1..])
  }

  lemma ApplyKeeps(ix: Index, op: Op)
    requires Valid(ix)
    ensures Valid(Apply(ix, op))
  {
    hide Valid, Register, Restore, Unregister;
    match op
    case DoRegister(filter, callback) => RegisterKeeps(ix, filter, callback);
    case DoRestore(id) => RestoreKeeps(ix, id);
    case DoUnregister(filter) => UnregisterKeeps(ix, filter);
    case DoClear => ClearKeeps(ix);
  }

  lemma {:induction false} ReachableValid(ix: Index, ops: seq<Op>)
    requires Valid(ix)
    ensures Valid(ApplyAll(ix, ops))
    decreases |ops|
  {
    hide Valid, Apply;
    if ops != [] {
      ApplyKeeps(ix, ops[0]);
      ReachableValid(Apply(ix, ops[0]), ops[1..]);
    }
  }

  lemma ClearKeeps(ix: Index)
    ensures Valid(Clear(ix)) && Coincide(Clear(ix))
  {
  }

  // ---- the index refines a scan ----

  lemma {:induction false} MatchingMeaning(es: seq<Entry>, topic: seq<byte>, e: Entry)
    ensures multiset(Matching(es, topic))[e] ==
            if Matches(topic, StripShared(e.filter)) then multiset(es)[e] else 0
  {
    hide Matches, StripShared;
    if es != [] {
      var front, last := es[..|es| - 1], es[|es| - 1];
      MatchingMeaning(front, topic, e);
      assert es == front + [last];
    }
  }

  lemma {:induction false} DistinctOnce(es: seq<Entry>, e: Entry)
    requires DistinctIds(es)
    ensures multiset(es)[e] == if e in es then 1 else 0
  {
    if es != [] {
      var front, last := es[..|es| - 1], es[|es| - 1];
      DistinctOnce(front, e);
      assert es == front + [last];
      assert forall x :: x in front ==> x.id != last.id;
    }
  }

  // Dispatch selects what a scan of the indexed entries with the matcher would: each match
  // once, and nothing else.
  ghost predicate AgreesWithScan(ix: Index, topic: seq<byte>) {
    forall e: Entry :: multiset(Selected(ix, topic))[e] ==
                       if Indexed(ix, e) && Matches(topic, StripShared(e.filter)) then 1 else 0
  }

  // How often an entry is selected.
  lemma SelectedCount(ix: Index, topic: seq<byte>, e: Entry)
    requires Valid(ix)
    ensures multiset(Selected(ix, topic))[e] ==
            if !Indexed(ix, e) then 0
            else if WildcardFree(StripShared(e.filter)) then (if StripShared(e.filter) == topic then 1 else 0)
            else if Matches(topic, StripShared(e.filter)) then 1 else 0
  {
    hide Matches, StripShared, WildcardFree;
    var key := StripShared(e.filter);
    MatchingMeaning(ix.wildcards, topic, e);
    DistinctOnce(ix.wildcards, e);
    DistinctOnce(EntriesAt(ix, topic), e);
    if WildcardFree(key) {
      assert e !in ix.wildcards;
    } else {
      assert e !in EntriesAt(ix, topic);
    }
  }

  // In every valid index and for every valid topic name, a message reaches each indexed entry
  // exactly once if its stripped filter matches, and no other entry at all, although entries
  // without wildcards are found by a lookup alone.
  lemma IndexRefinesScan(ix: Index, topic: seq<byte>)
    requires Valid(ix) && topic != [] && IsValidTopic(topic)
    ensures AgreesWithScan(ix, topic)
  {
    hide Matches, StripShared, WildcardFree, Selected, Indexed, Valid, IsValidTopic;
    forall e: Entry
      ensures multiset(Selected(ix, topic))[e] ==
              if Indexed(ix, e) && Matches(topic, StripShared(e.filter)) then 1 else 0
    {
      SelectedCount(ix, topic, e);
      if WildcardFree(StripShared(e.filter)) {
        LookupMatches(topic, StripShared(e.filter));
      }
    }
  }

  // A filter without wildcards matches a valid topic iff it is that topic, valid or not.
  lemma LookupMatches(topic: seq<byte>, key: seq<byte>)
    requires WildcardFree(key)
    ensures Matches(topic, key) ==> topic == key
    ensures topic == key ==> (Matches(topic, key) <==> topic != [] && IsValidTopic(topic))
  {
    if ValidFilter(key) {
      ExactFilter(topic, key);
    }
    if topic == key && topic != [] && IsValidTopic(topic) {
      TopicLevels(topic);
    }
  }

  // For any topic at all, dispatch agrees with the scan exactly when the topic is a valid,
  // non-empty name or no entry is indexed under it.
  lemma AgreesWithScanIff(ix: Index, topic: seq<byte>)
    requires Valid(ix)
    ensures AgreesWithScan(ix, topic) <==> (topic != [] && IsValidTopic(topic)) || EntriesAt(ix, topic) == []
  {
    hide Matches, StripShared, WildcardFree, Selected, IsValidTopic;
    if topic != [] && IsValidTopic(topic) {
      IndexRefinesScan(ix, topic);
    } else if EntriesAt(ix, topic) == [] {
      forall e: Entry
        ensures multiset(Selected(ix, topic))[e] ==
                if Indexed(ix, e) && Matches(topic, StripShared(e.filter)) then 1 else 0
      {
        SelectedCount(ix, topic, e);
        if WildcardFree(StripShared(e.filter)) {
          LookupMatches(topic, StripShared(e.filter));
        }
      }
    } else {
      var e := EntriesAt(ix, topic)[0];
      assert e in ix.exact[topic] && Indexed(ix, e);
      SelectedCount(ix, topic, e);
      LookupMatches(topic, topic);
    }
  }

  // For instance, a callback registered under the empty filter is called for the empty topic,
  // which the matcher matches with nothing.
  lemma EmptyTopicIsDispatched()
    ensures
      var ix := ApplyAll(EMPTY, [DoRegister([], 7)]);
      Selected(ix, []) == [Entry(1, 7, [])] && !Matches([], []) && !AgreesWithScan(ix, [])
  {
    var op := DoRegister([], 7);
    var ix := Register(EMPTY, [], 7);
    assert [op][1..] == [] && ApplyAll(ix, []) == ix;
    var e := Entry(1, 7, []);
    assert EntriesAt(EMPTY, []) + [e] == [e];
    assert EntriesAt(ix, []) == [e];
    RegisterKeeps(EMPTY, [], 7);
    AgreesWithScanIff(ix, []);
  }

  // ---- the order of the calls ----

  // a stands before b in the list.
  predicate Before(es: seq<Entry>, a: Entry, b: Entry) {
    exists p, q :: 0 <= p < q < |es| && es[p] == a && es[q] == b
  }

  lemma BeforeIn(es: seq<Entry>, more: seq<Entry>, a: Entry, b: Entry)
    requires Before(es, a, b)
    ensures Before(es + more, a, b)
  {
    var p, q :| 0 <= p < q < |es| && es[p] == a && es[q] == b;
    assert (es + more)[p] == a && (es + more)[q] == b;
  }

  lemma {:induction false} MatchingIn(es: seq<Entry>, topic: seq<byte>, e: Entry)
    requires e in Matching(es, topic)
    ensures e in es
  {
    hide Matches, StripShared;
    var front := es[..|es| - 1];
    if e in Matching(front, topic) {
      MatchingIn(front, topic, e);
    }
  }

  // The scan keeps the order of the list.
  lemma {:induction false} MatchingInOrder(es: seq<Entry>, topic: seq<byte>, i: nat, j: nat)
    requires i < j < |Matching(es, topic)|
    ensures Before(es, Matching(es, topic)[i], Matching(es, topic)[j])
  {
    hide Matches, StripShared, Before;
    var front, last := es[..|es| - 1], es[|es| - 1];
    var first := Matching(front, topic);
    assert es == front + [last];
    if j < |first| {
      MatchingInOrder(front, topic, i, j);
      BeforeIn(front, [last], first[i], first[j]);
    } else {
      MatchingIn(front, topic, first[i]);
      BeforeLast(front, first[i], last);
    }
  }

  lemma BeforeLast(es: seq<Entry>, a: Entry, last: Entry)
    requires a in es
    ensures Before(es + [last], a, last)
  {
    var p :| 0 <= p < |es| && es[p] == a;
    assert (es + [last])[p] == a && (es + [last])[|es|] == last;
  }

  predicate Plain(e: Entry) {
    WildcardFree(StripShared(e.filter))
  }

  // Entries without wildcards are called first; within either kind, in the order of the list.
  lemma DispatchOrder(ix: Index, topic: seq<byte>, i: nat, j: nat)
    requires Valid(ix) && i < j < |Selected(ix, topic)|
    ensures
      var a, b := Selected(ix, topic)[i], Selected(ix, topic)[j];
      && (Plain(b) ==> Plain(a))
      && (Plain(a) && Plain(b) ==> Before(EntriesAt(ix, topic), a, b))
      && (!Plain(a) && !Plain(b) ==> Before(ix.wildcards, a, b))
  {
    hide Matches, StripShared, WildcardFree;
    var first, later := EntriesAt(ix, topic), Matching(ix.wildcards, topic);
    var a, b := Selected(ix, topic)[i], Selected(ix, topic)[j];
    assert forall e :: e in first ==> Plain(e);
    forall e | e in later ensures !Plain(e) {
      MatchingIn(ix.wildcards, topic, e);
    }
    if j < |first| {
      assert first[i] == a && first[j] == b && a in first;
    } else {
      assert b == later[j - |first|] && b in later;
      if i >= |first| {
        MatchingInOrder(ix.wildcards, topic, i - |first|, j - |first|);
      } else {
        assert a in first;
      }
    }
  }

  predicate Ascending(es: seq<Entry>) {
    forall j, k :: 0 <= j < k < |es| ==> es[j].id < es[k].id
  }

  // Both kinds of list are in the order of registration.
  predicate InOrder(ix: Index) {
    Ascending(ix.wildcards) && forall key :: key in ix.exact ==> Ascending(ix.exact[key])
  }

  lemma RegisterInOrder(ix: Index, filter: seq<byte>, callback: Callback)
    requires Valid(ix) && InOrder(ix)
    ensures InOrder(Register(ix, filter, callback))
  {
    hide StripShared, WildcardFree;
    var slot, e := Slot(ix, filter), Entry(ix.nextId, callback, filter);
    forall k | 0 <= k < |slot| ensures slot[k].id < ix.nextId {
      assert slot[k] in slot && Registered(ix, slot[k]);
    }
    assert Ascending(slot + [e]);
    assert Slot(Register(ix, filter, callback), filter) == slot + [e];
  }

  lemma {:induction false} WithoutAscending(es: seq<Entry>, filter: seq<byte>)
    requires Ascending(es)
    ensures Ascending(Without(es, filter))
  {
    if es != [] {
      var front, last := es[..|es| - 1], es[|es| - 1];
      WithoutAscending(front, filter);
      WithoutMeaning(front, filter);
      var kept := Without(front, filter);
      forall k | 0 <= k < |kept| ensures kept[k].id < last.id {
        assert kept[k] in kept && kept[k] in front;
      }
    }
  }

  predicate NoRestore(ops: seq<Op>) {
    forall k :: 0 <= k < |ops| ==> !ops[k].DoRestore?
  }

  lemma {:induction false} InOrderRun(ix: Index, ops: seq<Op>)
    requires Valid(ix) && InOrder(ix) && NoRestore(ops)
    ensures Valid(ApplyAll(ix, ops)) && InOrder(ApplyAll(ix, ops))
    decreases |ops|
  {
    hide Valid, Register, StripShared, WildcardFree;
    if ops != [] {
      ApplyKeeps(ix, ops[0]);
      match ops[0] {
        case DoRegister(filter, callback) => RegisterInOrder(ix, filter, callback);
        case DoUnregister(filter) => WithoutAscending(ix.wildcards, filter);
        case DoClear =>
      }
      InOrderRun(Apply(ix, ops[0]), ops[1..]);
    }
  }

  // Unless callbacks are restored, each kind is called in the order of registration.
  lemma CalledInOrder(ops: seq<Op>, topic: seq<byte>, i: nat, j: nat)
    requires NoRestore(ops) && i < j < |Selected(ApplyAll(EMPTY, ops), topic)|
    ensures
      var a, b := Selected(ApplyAll(EMPTY, ops), topic)[i], Selected(ApplyAll(EMPTY, ops), topic)[j];
      Plain(a) == Plain(b) ==> a.id < b.id
  {
    hide StripShared, WildcardFree, Matches, Selected, ApplyAll, Plain;
    InOrderRun(EMPTY, ops);
    var ix := ApplyAll(EMPTY, ops);
    DispatchOrder(ix, topic, i, j);
  }

  // For instance, "a/b" is called before "a/+", which was registered before it.
  lemma ExactFirst()
    ensures
      var b, plus := [0x61, SLASH, 0x62], [0x61, SLASH, PLUS];
      CallbacksOf(Selected(ApplyAll(EMPTY, [DoRegister(plus, 71), DoRegister(b, 72)]), b)) == [72, 71]
  {
    hide StripShared, Matches, ApplyAll;
    var b: seq<byte>, plus: seq<byte> := [0x61, SLASH, 0x62], [0x61, SLASH, PLUS];
    PlainFilter(b);
    PlainFilter(plus);
    LevelMatched();
    TwoRegistered(plus, b);
    OnlyMatch(Entry(1, 71, plus), b);
  }

  lemma TwoRegistered(plus: seq<byte>, b: seq<byte>)
    requires StripShared(plus) == plus && !WildcardFree(plus) && StripShared(b) == b && WildcardFree(b)
    ensures
      var ix := ApplyAll(EMPTY, [DoRegister(plus, 71), DoRegister(b, 72)]);
      ix.wildcards == [Entry(1, 71, plus)] && EntriesAt(ix, b) == [Entry(2, 72, b)]
  {
    hide StripShared, WildcardFree;
    var ops := [DoRegister(plus, 71), DoRegister(b, 72)];
    var ix := Apply(EMPTY, ops[0]);
    assert ops[1..] == [ops[1]] && [ops[1]][1..] == [];
    assert ApplyAll(ix, [ops[1]]) == Apply(ix, ops[1]);
    assert ix.wildcards == [Entry(1, 71, plus)];
  }

  lemma OnlyMatch(e: Entry, topic: seq<byte>)
    requires Matches(topic, StripShared(e.filter))
    ensures Matching([e], topic) == [e]
  {
    hide Matches, StripShared;
    assert [e][..0] == [];
    assert Matching([], topic) == [];
  }

  lemma LevelMatched()
    ensures Matches([0x61, SLASH, 0x62], [0x61, SLASH, PLUS])
  {
    var a: Level, b: Level, plus: Level := [0x61], [0x62], [PLUS];
    assert a + [SLASH] + b == [0x61, SLASH, 0x62] && a + [SLASH] + plus == [0x61, SLASH, PLUS];
    SplitLevel(a, b);
    SplitLevel(b, []);
    SplitLevel(a, plus);
    SplitLevel(plus, []);
    MatchesIsStandard([0x61, SLASH, 0x62], [0x61, SLASH, PLUS]);
  }

  // ---- what each operation adds and removes ----

  // Registering adds the new entry, under the next identifier, and changes no other.
  lemma RegisterAdds(ix: Index, filter: seq<byte>, callback: Callback)
    requires Valid(ix)
    ensures
      var ix', e := Register(ix, filter, callback), Entry(ix.nextId, callback, filter);
      && ix'.registry == ix.registry[ix.nextId := e] && ix'.nextId == ix.nextId + 1
      && forall x :: Indexed(ix', x) <==> Indexed(ix, x) || x == e
  {
    hide StripShared, WildcardFree;
    var ix', e := Register(ix, filter, callback), Entry(ix.nextId, callback, filter);
    assert Slot(ix', filter) == Slot(ix, filter) + [e];
    forall x ensures Indexed(ix', x) <==> Indexed(ix, x) || x == e {
      SlotAfterInsert(ix.(registry := ix'.registry, nextId := ix'.nextId), e, x.filter);
    }
  }

  lemma SlotAfterInsert(ix: Index, e: Entry, filter: seq<byte>)
    ensures Slot(Insert(ix, e), filter) ==
            if SameSlot(e.filter, filter) then Slot(ix, filter) + [e] else Slot(ix, filter)
  {
    hide StripShared, WildcardFree;
  }

  // The two filters share a list of the index.
  predicate SameSlot(f: seq<byte>, g: seq<byte>) {
    if WildcardFree(StripShared(f)) then StripShared(f) == StripShared(g) else !WildcardFree(StripShared(g))
  }

  // Unregistering removes from the registry the entries with that filter and no others, and
  // from the index those and, for a key without wildcards, all with the same key.
  lemma UnregisterRemovesOnly(ix: Index, filter: seq<byte>)
    requires Valid(ix)
    ensures
      var ix' := Unregister(ix, filter);
      && (forall id :: id in ix'.registry <==> id in ix.registry && ix.registry[id].filter != filter)
      && (forall id :: id in ix'.registry ==> ix'.registry[id] == ix.registry[id])
      && ix'.nextId == ix.nextId
      && forall e :: Indexed(ix', e) <==> Indexed(ix, e) && e.filter != filter && !(Plain(e) && SameSlot(filter, e.filter))
  {
    hide StripShared, WildcardFree, Valid, Without;
    WithoutMeaning(ix.wildcards, filter);
    var ix' := Unregister(ix, filter);
    forall e ensures Indexed(ix', e) <==> Indexed(ix, e) && e.filter != filter && !(Plain(e) && SameSlot(filter, e.filter)) {
    }
  }

  // What `unregister` returns: whether anything changed.
  lemma RemovedIffChanged(ix: Index, filter: seq<byte>)
    requires Valid(ix)
    ensures Removable(ix, filter) <==> Unregister(ix, filter) != ix
  {
    hide StripShared, WildcardFree, Valid, Without, KeptEntries;
    var ix' := Unregister(ix, filter);
    KeptSize(ix.registry, filter);
    WildcardsAreRegistered(ix, filter);
    WithoutShorter(ix.wildcards, filter);
    WithoutNothing(ix.wildcards, filter);
    KeptAll(ix.registry, filter);
    if StripShared(filter) !in ix.exact {
      assert ix.exact - {StripShared(filter)} == ix.exact;
    }
  }

  lemma {:induction false} WithoutNothing(es: seq<Entry>, filter: seq<byte>)
    ensures (forall k :: 0 <= k < |es| ==> es[k].filter != filter) ==> Without(es, filter) == es
  {
    if es != [] && forall k :: 0 <= k < |es| ==> es[k].filter != filter {
      WithoutNothing(es[..|es| - 1], filter);
      assert es == es[..|es| - 1] + [es[|es| - 1]];
    }
  }

  lemma KeptAll(registry: map<nat, Entry>, filter: seq<byte>)
    ensures (forall id :: id in registry ==> registry[id].filter != filter) ==> KeptEntries(registry, filter) == registry
  {
  }

  // ---- restoring ----

  // Restoring twice is restoring once; a registered entry is then indexed, and all entries
  // indexed before still are.
  lemma RestoreIdempotent(ix: Index, id: nat)
    requires Valid(ix)
    ensures Restore(Restore(ix, id), id) == Restore(ix, id)
    ensures id in ix.registry ==> Indexed(Restore(ix, id), ix.registry[id])
    ensures forall e :: Indexed(Restore(ix, id), e) <==> Indexed(ix, e) || (id in ix.registry && e == ix.registry[id])
    ensures Restore(ix, id).registry == ix.registry && Restore(ix, id).nextId == ix.nextId
  {
    hide StripShared, WildcardFree;
    if id in ix.registry {
      var e, ix' := ix.registry[id], Restore(ix, id);
      var slot := Slot(ix, e.filter);
      if HasId(slot, id) {
        var k :| 0 <= k < |slot| && slot[k].id == id;
        assert slot[k] in slot && Registered(ix, slot[k]);
      } else {
        assert Slot(ix', e.filter) == slot + [e];
        assert (slot + [e])[|slot|].id == id;
      }
    }
  }

  // ---- when index and registry coincide ----

  ghost predicate Coincide(ix: Index) {
    forall id :: id in ix.registry ==> Indexed(ix, ix.registry[id])
  }

  // Another live filter that strips to the same key without wildcards.
  ghost predicate SharesKey(ix: Index, filter: seq<byte>) {
    exists id :: id in ix.registry && ix.registry[id].filter != filter
                 && WildcardFree(StripShared(filter)) && StripShared(ix.registry[id].filter) == StripShared(filter)
  }

  lemma SlotGrows(ix: Index, filter: seq<byte>, callback: Callback, other: seq<byte>)
    ensures Slot(ix, other) <= Slot(Register(ix, filter, callback), other)
  {
    hide StripShared, WildcardFree;
  }

  lemma RegisterCoincides(ix: Index, filter: seq<byte>, callback: Callback)
    requires Valid(ix) && Coincide(ix)
    ensures Coincide(Register(ix, filter, callback))
  {
    hide StripShared, WildcardFree;
    var ix' := Register(ix, filter, callback);
    forall id | id in ix'.registry ensures Indexed(ix', ix'.registry[id]) {
      if id == ix.nextId {
        assert Slot(ix', filter) == Slot(ix, filter) + [ix'.registry[id]];
      } else {
        assert Indexed(ix, ix.registry[id]);
        SlotGrows(ix, filter, callback, ix.registry[id].filter);
      }
    }
  }

  // Removing a filter keeps index and registry in step exactly when no other live filter
  // strips to the same key: for a key without wildcards the whole list is dropped.
  lemma UnregisterCoincidesIff(ix: Index, filter: seq<byte>)
    requires Valid(ix) && Coincide(ix)
    ensures Coincide(Unregister(ix, filter)) <==> !SharesKey(ix, filter)
  {
    hide StripShared, WildcardFree, Valid, Without;
    var ix', key := Unregister(ix, filter), StripShared(filter);
    WithoutMeaning(ix.wildcards, filter);
    if SharesKey(ix, filter) {
      var id :| id in ix.registry && ix.registry[id].filter != filter
                && WildcardFree(key) && StripShared(ix.registry[id].filter) == key;
      assert id in ix'.registry && !Indexed(ix', ix'.registry[id]);
    } else {
      forall id | id in ix'.registry ensures Indexed(ix', ix'.registry[id]) {
        assert Indexed(ix, ix.registry[id]);
      }
    }
  }

  lemma RestoreCoincides(ix: Index, id: nat)
    requires Valid(ix) && Coincide(ix)
    ensures Coincide(Restore(ix, id))
  {
    hide StripShared, WildcardFree, Slot, Restore;
    RestoreIdempotent(ix, id);
  }

  // Every filter the run unregisters is, at that moment, the only live one with its key.
  ghost predicate KeysStayApart(ix: Index, ops: seq<Op>)
    decreases |ops|
  {
    ops == [] ||
    (&& (ops[0].DoUnregister? ==> !SharesKey(ix, ops[0].filter))
     && KeysStayApart(Apply(ix, ops[0]), ops[1..]))
  }

  // The index holds exactly the registered entries in every state of the run.
  ghost predicate CoincideThroughout(ix: Index, ops: seq<Op>)
    decreases |ops|
  {
    Coincide(ix) && (ops != [] ==> CoincideThroughout(Apply(ix, ops[0]), ops[1..]))
  }

  lemma ApplyCoincidesIff(ix: Index, op: Op)
    requires Valid(ix) && Coincide(ix)
    ensures Coincide(Apply(ix, op)) <==> (op.DoUnregister? ==> !SharesKey(ix, op.filter))
  {
    hide Valid, Coincide, SharesKey, Register, Restore, Unregister;
    match op
    case DoRegister(filter, callback) => RegisterCoincides(ix, filter, callback);
    case DoRestore(id) => RestoreCoincides(ix, id);
    case DoUnregister(filter) => UnregisterCoincidesIff(ix, filter);
    case DoClear => ClearKeeps(ix);
  }

  // Runs that keep the keys apart are exactly those in which the index never falls behind.
  lemma {:induction false} CoincideRunIff(ix: Index, ops: seq<Op>)
    requires Valid(ix) && Coincide(ix)
    ensures CoincideThroughout(ix, ops) <==> KeysStayApart(ix, ops)
    decreases |ops|
  {
    hide Valid, Coincide, SharesKey, Apply;
    if ops != [] {
      var ix' := Apply(ix, ops[0]);
      ApplyKeeps(ix, ops[0]);
      ApplyCoincidesIff(ix, ops[0]);
      if Coincide(ix') {
        CoincideRunIff(ix', ops[1..]);
      }
    }
  }

  // For instance, "a" and "$share/g/a" are registered and "a" is removed: the second callback
  // stays registered but no message on "a" reaches it.
  lemma UnregisterLosesAnother()
    ensures
      var a, shared := [0x61], SHARE_PREFIX + [0x67] + [SLASH] + [0x61];
      var ix := ApplyAll(EMPTY, [DoRegister(a, 7), DoRegister(shared, 8), DoUnregister(a)]);
      && 2 in ix.registry && ix.registry[2] == Entry(2, 8, shared)
      && !Indexed(ix, ix.registry[2]) && Selected(ix, a) == []
  {
    hide StripShared, Matches;
    var a, shared := [0x61], SHARE_PREFIX + [0x67] + [SLASH] + [0x61];
    var ops := [DoRegister(a, 7), DoRegister(shared, 8), DoUnregister(a)];
    StripShareGroup([0x67], a);
    PlainFilter(a);
    var e1, e2 := Entry(1, 7, a), Entry(2, 8, shared);
    var ix1, ix2 := Apply(EMPTY, ops[0]), Apply(Apply(EMPTY, ops[0]), ops[1]);
    assert ix1.registry[1] == e1 && ix1.nextId == 2 && ix1.wildcards == [];
    assert ix2.registry[2] == e2 && ix2.wildcards == [];
    var ix3 := Apply(ix2, ops[2]);
    assert |shared| != |a|;
    assert ix3.wildcards == [];
    ThreeOps(EMPTY, ops);
  }

  lemma PlainFilter(a: seq<byte>)
    requires |a| < |SHARE_PREFIX|
    ensures StripShared(a) == a
  {
  }

  lemma ThreeOps(ix: Index, ops: seq<Op>)
    requires |ops| == 3
    ensures ApplyAll(ix, ops) == Apply(Apply(Apply(ix, ops[0]), ops[1]), ops[2])
  {
    hide Apply;
    var ix1 := Apply(ix, ops[0]);
    var ix2 := Apply(ix1, ops[1]);
    assert ops[1..][1..] == [ops[2]] && [ops[2]][1..] == [];
    assert ApplyAll(ix2, [ops[2]]) == Apply(ix2, ops[2]);
    assert ApplyAll(ix1, ops[1..]) == ApplyAll(ix2, [ops[2]]);
  }

  // After unregistering, no entry with that filter is registered or called.
  lemma UnregisterRemoves(ix: Index, filter: seq<byte>, topic: seq<byte>)
    requires Valid(ix)
    ensures forall id :: id in Unregister(ix, filter).registry ==> Unregister(ix, filter).registry[id].filter != filter
    ensures forall e :: e in Selected(Unregister(ix, filter), topic) ==> e.filter != filter
  {
    hide StripShared, WildcardFree, Matches;
    var ix' := Unregister(ix, filter);
    UnregisterKeeps(ix, filter);
    forall e | e in Selected(ix', topic) ensures e.filter != filter {
      MatchingMeaning(ix'.wildcards, topic, e);
      assert e in EntriesAt(ix', topic) || e in multiset(Matching(ix'.wildcards, topic));
      assert Registered(ix', e);
    }
  }

  // ---- identifiers are never used twice ----

  function Registrations(ops: seq<Op>): nat {
    if ops == [] then 0 else (if ops[0].DoRegister? then 1 else 0) + Registrations(ops[1..])
  }

  // Each registration takes the next identifier, and nothing gives one back.
  lemma {:induction false} IdsNeverReused(ix: Index, ops: seq<Op>)
    ensures ApplyAll(ix, ops).nextId == ix.nextId + Registrations(ops)
    decreases |ops|
  {
    hide StripShared, WildcardFree;
    if ops != [] {
      IdsNeverReused(Apply(ix, ops[0]), ops[1..]);
    }
  }

  // After clearing, nothing is registered and no message reaches anyone.
  lemma ClearForgets(ix: Index, topic: seq<byte>)
    ensures Clear(ix).registry == map[] && Selected(Clear(ix), topic) == []
  {
  }
}
