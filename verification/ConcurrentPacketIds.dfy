/**
 The lock-free allocator `PacketIdGenerator::next` (crates/mqtt5-protocol/src/packet_id.rs)
 run by any number of threads, one atomic operation per step. A call loads the cell and
 tries to swap it, at most MAX_RETRIES times; after that it falls back on an unconditional
 fetch_add, followed by a store when the fetched value was 0.
 */
module ConcurrentPacketIds {
  import opened Bytes
  import opened PacketIds

  const MAX_RETRIES := 1000

  type Thread = nat

  // Where a thread is inside `next`.
  datatype Local =
    | Idle
    | Retrying(tries: nat)                // about to load, or to fall back
    | Loaded(current: u16, tries: nat)    // about to compare-exchange
    | Resetting                           // fetched 0, about to store 2

  // What a call of thread t returns.
  datatype Result = Result(t: Thread, id: u16)

  // `results` holds what the calls return, in the order of their atomic updates.
  datatype State = State(cell: u16, threads: map<Thread, Local>, results: seq<Result>)

  datatype Event =
    | Call(t: Thread)
    | Load(t: Thread)
    | Swap(t: Thread)
    | FetchAdd(t: Thread)
    | Store(t: Thread)

  function At(s: State, t: Thread): Local {
    if t in s.threads then s.threads[t] else Idle
  }

  function Init(cell: PacketId): State {
    State(cell, map[], [])
  }

  predicate Enabled(s: State, e: Event) {
    match e
    case Call(t) => At(s, t).Idle?
    case Load(t) => At(s, t).Retrying? && At(s, t).tries < MAX_RETRIES
    case Swap(t) => At(s, t).Loaded?
    case FetchAdd(t) => At(s, t).Retrying? && At(s, t).tries >= MAX_RETRIES
    case Store(t) => At(s, t).Resetting?
  }

  function Move(s: State, t: Thread, l: Local): State {
    s.(threads := s.threads[t := l])
  }

  function Next(s: State, e: Event): State
    requires Enabled(s, e)
  {
    match e
    case Call(t) => Move(s, t, Retrying(0))
    case Load(t) => Move(s, t, Loaded(s.cell, At(s, t).tries))
    case Swap(t) =>
      var l := At(s, t);
      if s.cell == l.current
      then Move(s, t, Idle).(cell := After(l.current), results := s.results + [Result(t, l.current)])
      else Move(s, t, Retrying(l.tries + 1))
    case FetchAdd(t) =>
      var wrapped := if s.cell == 65535 then 0 else s.cell + 1;
      if s.cell == 0
      then Move(s, t, Resetting).(cell := wrapped, results := s.results + [Result(t, 1)])
      else Move(s, t, Idle).(cell := wrapped, results := s.results + [Result(t, s.cell)])
    case Store(t) => Move(s, t, Idle).(cell := 2)
  }

  predicate Run(s: State, es: seq<Event>)
    decreases |es|
  {
    es == [] || (Enabled(s, es[0]) && Run(Next(s, es[0]), es[1..]))
  }

  function Final(s: State, es: seq<Event>): State
    requires Run(s, es)
    decreases |es|
  {
    if es == [] then s else Final(Next(s, es[0]), es[1..])
  }

  // The cell holds a packet identifier in every state of the run.
  predicate CellStaysInRange(s: State, es: seq<Event>)
    requires Run(s, es)
    decreases |es|
  {
    1 <= s.cell && (es != [] ==> CellStaysInRange(Next(s, es[0]), es[1..]))
  }

  // Some call of the run falls back on fetch_add while the cell holds 65535.
  predicate FallsBackAtTop(s: State, es: seq<Event>)
    requires Run(s, es)
    decreases |es|
  {
    es != [] && ((es[0].FetchAdd? && s.cell == 65535) || FallsBackAtTop(Next(s, es[0]), es[1..]))
  }

  predicate NoReset(s: State) {
    forall t :: t in s.threads ==> !s.threads[t].Resetting?
  }

  // The cell stays in 1..65535 in every state of a run exactly when no call falls back while
  // it holds 65535.
  lemma {:induction false} RangeIffNoFallbackAtTop(s: State, es: seq<Event>)
    requires Run(s, es) && 1 <= s.cell && NoReset(s)
    ensures CellStaysInRange(s, es) <==> !FallsBackAtTop(s, es)
    decreases |es|
  {
    if es != [] {
      var s' := Next(s, es[0]);
      if es[0].FetchAdd? && s.cell == 65535 {
        assert s'.cell == 0;
        assert !CellStaysInRange(s', es[1..]);
      } else {
        RangeIffNoFallbackAtTop(s', es[1..]);
      }
    }
  }

  // ---- which runs return identifiers only ----

  // The event writes the cell.
  predicate Updates(s: State, e: Event)
    requires Enabled(s, e)
  {
    e.FetchAdd? || e.Store? || (e.Swap? && s.cell == At(s, e.t).current)
  }

  // The run writes the cell, and first by a compare-exchange.
  predicate FirstUpdateSwaps(s: State, es: seq<Event>)
    requires Run(s, es)
    decreases |es|
  {
    es != [] && if Updates(s, es[0]) then es[0].Swap? else FirstUpdateSwaps(Next(s, es[0]), es[1..])
  }

  // Some call falls back while the cell holds 65535, which wraps it to 0, and the next write
  // to the cell is a compare-exchange.
  predicate WrapsThenSwaps(s: State, es: seq<Event>)
    requires Run(s, es)
    decreases |es|
  {
    && es != []
    && var s' := Next(s, es[0]);
    || (es[0].FetchAdd? && s.cell == 65535 && FirstUpdateSwaps(s', es[1..]))
    || WrapsThenSwaps(s', es[1..])
  }

  predicate Lists(results: seq<Result>, id: u16) {
    exists k :: 0 <= k < |results| && results[k].id == id
  }

  lemma ListsMore(s: State, e: Event)
    requires Enabled(s, e)
    ensures Lists(Next(s, e).results, 0) <==> Lists(s.results, 0) || (s.cell == 0 && Updates(s, e) && e.Swap?)
  {
    var more := Next(s, e).results;
    if Lists(s.results, 0) {
      var k :| 0 <= k < |s.results| && s.results[k].id == 0;
      assert more[k].id == 0;
    } else if s.cell == 0 && Updates(s, e) && e.Swap? {
      assert more[|s.results|].id == 0;
    }
  }

  lemma {:induction false} ZeroAppearsIff(s: State, es: seq<Event>)
    requires Run(s, es)
    ensures Lists(Final(s, es).results, 0) <==>
            Lists(s.results, 0) || WrapsThenSwaps(s, es) || (s.cell == 0 && FirstUpdateSwaps(s, es))
    decreases |es|
  {
    if es != [] {
      ListsMore(s, es[0]);
      ZeroAppearsIff(Next(s, es[0]), es[1..]);
    }
  }

  // The promise that `next` returns 1..65535 holds of a run exactly when no call falls back
  // while the cell holds 65535 and is followed by a compare-exchange as the next write. A
  // second fallback in its place returns 1 and resets the cell.
  lemma IdsInRangeIff(start: PacketId, es: seq<Event>)
    requires Run(Init(start), es)
    ensures (forall k :: 0 <= k < |Final(Init(start), es).results| ==> 1 <= Final(Init(start), es).results[k].id <= 65535)
       <==> !WrapsThenSwaps(Init(start), es)
  {
    ZeroAppearsIff(Init(start), es);
  }

  lemma {:induction false} SwapAfterWrapNeedsFallback(s: State, es: seq<Event>)
    requires Run(s, es) && WrapsThenSwaps(s, es)
    ensures FallsBackAtTop(s, es)
    decreases |es|
  {
    if !(es[0].FetchAdd? && s.cell == 65535) {
      SwapAfterWrapNeedsFallback(Next(s, es[0]), es[1..]);
    }
  }

  // ---- and which return the cyclic sequence ----

  // What is returned without such a fallback is the cyclic sequence, in order and without gaps.
  ghost predicate Cyclic(s: State, start: PacketId) {
    && NoReset(s)
    && s.cell == Cycle(start, |s.results|)
    && forall n :: 0 <= n < |s.results| ==> s.results[n].id == Cycle(start, n)
  }

  lemma CyclicStep(s: State, e: Event, start: PacketId)
    requires Enabled(s, e) && Cyclic(s, start)
    requires !(e.FetchAdd? && s.cell == 65535)
    ensures Cyclic(Next(s, e), start)
  {
    CycleStep(start, |s.results|);
  }

  lemma {:induction false} CyclicRun(s: State, es: seq<Event>, start: PacketId)
    requires Run(s, es) && Cyclic(s, start) && !FallsBackAtTop(s, es)
    ensures Cyclic(Final(s, es), start)
    decreases |es|
  {
    if es != [] {
      CyclicStep(s, es[0], start);
      CyclicRun(Next(s, es[0]), es[1..], start);
    }
  }

  // Any interleaving without a fallback at 65535: the n-th update returns the n-th value of
  // the cyclic sequence, so any 65535 consecutive results are distinct identifiers.
  lemma ResultsAreCyclic(start: PacketId, es: seq<Event>)
    requires Run(Init(start), es) && !FallsBackAtTop(Init(start), es)
    ensures
      var rs := Final(Init(start), es).results;
      && (forall n :: 0 <= n < |rs| ==> rs[n].id == Cycle(start, n))
      && (forall i, j :: 0 <= i < j < |rs| && j < i + MAX_ID ==> rs[i].id != rs[j].id)
  {
    CyclicRun(Init(start), es, start);
    var rs := Final(Init(start), es).results;
    forall i, j | 0 <= i < j < |rs| && j < i + MAX_ID ensures rs[i].id != rs[j].id {
      CycleDistinct(start, i, j);
    }
  }

  // ---- exactly when the results are the cyclic sequence ----

  predicate SomeResetting(s: State) {
    exists t :: t in s.threads && s.threads[t].Resetting?
  }

  // An update that leaves the sequence: a compare-exchange while the cell is 0, or any update
  // that returns a value between the second fallback and its store.
  predicate Disorderly(s: State, e: Event)
    requires Enabled(s, e)
  {
    || (e.Swap? && Updates(s, e) && (s.cell == 0 || SomeResetting(s)))
    || (e.FetchAdd? && SomeResetting(s))
  }

  predicate Orderly(s: State, es: seq<Event>)
    requires Run(s, es)
    decreases |es|
  {
    es == [] || (!Disorderly(s, es[0]) && Orderly(Next(s, es[0]), es[1..]))
  }

  ghost predicate InSequence(results: seq<Result>, start: PacketId) {
    forall n :: 0 <= n < |results| ==> results[n].id == Cycle(start, n)
  }

  // At most one thread resets, and then the cell holds 1 and 2 comes next; a cell of 0 means
  // that 1 comes next.
  ghost predicate OnTrack(s: State, start: PacketId) {
    && InSequence(s.results, start)
    && (forall t, u :: t in s.threads && u in s.threads && s.threads[t].Resetting? && s.threads[u].Resetting? ==> t == u)
    && var next := Cycle(start, |s.results|);
    if SomeResetting(s) then s.cell == 1 && next == 2
    else if s.cell == 0 then next == 1
    else s.cell == next
  }

  lemma OrderlyStep(s: State, e: Event, start: PacketId)
    requires OnTrack(s, start) && Enabled(s, e) && !Disorderly(s, e)
    ensures OnTrack(Next(s, e), start)
  {
    CycleStep(start, |s.results|);
    var s' := Next(s, e);
    if e.FetchAdd? && s.cell == 0 {
      assert s'.threads[e.t].Resetting?;
    } else if !e.Store? && SomeResetting(s) {
      var t :| t in s.threads && s.threads[t].Resetting?;
      assert t != e.t && t in s'.threads && s'.threads[t].Resetting?;
    }
  }

  lemma DisorderlyStep(s: State, e: Event, start: PacketId)
    requires OnTrack(s, start) && Enabled(s, e) && Disorderly(s, e)
    ensures !InSequence(Next(s, e).results, start)
  {
    var rs := Next(s, e).results;
    assert rs[|s.results|].id != Cycle(start, |s.results|);
  }

  lemma {:induction false} ResultsGrow(s: State, es: seq<Event>)
    requires Run(s, es)
    ensures s.results <= Final(s, es).results
    decreases |es|
  {
    if es != [] {
      ResultsGrow(Next(s, es[0]), es[1..]);
    }
  }

  lemma {:induction false} SequenceIff(s: State, es: seq<Event>, start: PacketId)
    requires Run(s, es) && OnTrack(s, start)
    ensures InSequence(Final(s, es).results, start) <==> Orderly(s, es)
    decreases |es|
  {
    hide OnTrack, InSequence, Disorderly, Next, Enabled;
    if es == [] {
      TrackedResults(s, start);
    } else if Disorderly(s, es[0]) {
      DisorderlyStep(s, es[0], start);
      ResultsGrow(Next(s, es[0]), es[1..]);
      OutOfSequence(Next(s, es[0]).results, Final(s, es).results, start);
    } else {
      OrderlyStep(s, es[0], start);
      SequenceIff(Next(s, es[0]), es[1..], start);
    }
  }

  lemma TrackedResults(s: State, start: PacketId)
    requires OnTrack(s, start)
    ensures InSequence(s.results, start)
  {
  }

  lemma OutOfSequence(a: seq<Result>, b: seq<Result>, start: PacketId)
    requires a <= b && !InSequence(a, start)
    ensures !InSequence(b, start)
  {
    var n :| 0 <= n < |a| && a[n].id != Cycle(start, n);
    assert b[n] == a[n];
  }

  // The calls return the cyclic sequence exactly if a wrapped cell is met by a second fallback
  // first, which returns 1, and its store of 2 comes before any other update.
  lemma ResultsAreCyclicIff(start: PacketId, es: seq<Event>)
    requires Run(Init(start), es)
    ensures (forall n :: 0 <= n < |Final(Init(start), es).results| ==>
                           Final(Init(start), es).results[n].id == Cycle(start, n)) <==> Orderly(Init(start), es)
  {
    SequenceIff(Init(start), es, start);
  }

  // ---- the range promise fails: a run from a new generator in which a call returns 0 ----

  lemma {:induction false} RunAppend(s: State, es: seq<Event>, fs: seq<Event>)
    requires Run(s, es) && Run(Final(s, es), fs)
    ensures Run(s, es + fs) && Final(s, es + fs) == Final(Final(s, es), fs)
    decreases |es|
  {
    if es == [] {
      assert es + fs == fs;
    } else {
      RunAppend(Next(s, es[0]), es[1..], fs);
      assert (es + fs)[1..] == es[1..] + fs;
    }
  }

  lemma RunOne(s: State, e: Event)
    requires Enabled(s, e)
    ensures Run(s, [e]) && Final(s, [e]) == Next(s, e)
  {
    assert [e][1..] == [];
    assert Run(Next(s, e), []);
  }

  function OneCall(t: Thread): seq<Event> {
    [Call(t), Load(t), Swap(t)]
  }

  // A call that meets no other thread returns the cell and advances it, whatever it holds.
  lemma SoloCall(s: State, t: Thread)
    requires At(s, t).Idle?
    ensures
      && Run(s, OneCall(t))
      && var s' := Final(s, OneCall(t));
      && s'.cell == After(s.cell) && s'.results == s.results + [Result(t, s.cell)] && At(s', t).Idle?
      && forall u :: u != t ==> At(s', u) == At(s, u)
  {
    var s1 := Next(s, Call(t));
    var s2 := Next(s1, Load(t));
    assert OneCall(t)[1..] == [Load(t), Swap(t)];
    assert [Load(t), Swap(t)][1..] == [Swap(t)];
    RunOne(s2, Swap(t));
    assert Run(s1, [Load(t), Swap(t)]) && Final(s1, [Load(t), Swap(t)]) == Next(s2, Swap(t));
  }

  // Thread 1 calls n times while thread 0 rests.
  lemma {:induction false} ManyCalls(s: State, n: nat) returns (es: seq<Event>)
    requires At(s, 1).Idle? && 1 <= s.cell && s.cell + n <= 65535
    ensures Run(s, es) && Final(s, es).cell == s.cell + n
    ensures At(Final(s, es), 1).Idle? && At(Final(s, es), 0) == At(s, 0)
    decreases n
  {
    if n == 0 {
      es := [];
    } else {
      SoloCall(s, 1);
      var rest := ManyCalls(Final(s, OneCall(1)), n - 1);
      RunAppend(s, OneCall(1), rest);
      es := OneCall(1) + rest;
    }
  }

  // One round that thread 0 loses: between its load and its swap thread 1 completes a call.
  lemma LostRound(s: State) returns (es: seq<Event>)
    requires At(s, 0).Retrying? && At(s, 0).tries < MAX_RETRIES
    requires At(s, 1).Idle? && 1 <= s.cell < 65535
    ensures Run(s, es) && Final(s, es).cell == s.cell + 1
    ensures At(Final(s, es), 0) == Retrying(At(s, 0).tries + 1) && At(Final(s, es), 1).Idle?
  {
    var s1 := Next(s, Load(0));
    RunOne(s, Load(0));
    SoloCall(s1, 1);
    var s2 := Final(s1, OneCall(1));
    RunAppend(s, [Load(0)], OneCall(1));
    RunOne(s2, Swap(0));
    RunAppend(s, [Load(0)] + OneCall(1), [Swap(0)]);
    es := [Load(0)] + OneCall(1) + [Swap(0)];
  }

  lemma {:induction false} LostRounds(s: State, n: nat) returns (es: seq<Event>)
    requires At(s, 0).Retrying? && At(s, 0).tries + n <= MAX_RETRIES
    requires At(s, 1).Idle? && 1 <= s.cell && s.cell + n <= 65535
    ensures Run(s, es) && Final(s, es).cell == s.cell + n
    ensures At(Final(s, es), 0) == Retrying(At(s, 0).tries + n) && At(Final(s, es), 1).Idle?
    decreases n
  {
    if n == 0 {
      es := [];
    } else {
      var round := LostRound(s);
      var rest := LostRounds(Final(s, round), n - 1);
      RunAppend(s, round, rest);
      es := round + rest;
    }
  }

  // Two threads suffice: thread 0 loses 1000 rounds while the cell climbs to 65535, its
  // fetch_add wraps the cell to 0, and the next call returns 0, which is no identifier.
  lemma ZeroCanBeReturned() returns (es: seq<Event>)
    ensures Run(Init(1), es)
    ensures Lists(Final(Init(1), es).results, 0)
  {
    var s0 := Init(1);
    var climb := ManyCalls(s0, 64534);
    var s1 := Final(s0, climb);
    var s2 := Next(s1, Call(0));
    RunOne(s1, Call(0));
    RunAppend(s0, climb, [Call(0)]);
    var lost := LostRounds(s2, MAX_RETRIES);
    RunAppend(s0, climb + [Call(0)], lost);
    var s3 := Final(s2, lost);
    var s4 := Next(s3, FetchAdd(0));
    RunOne(s3, FetchAdd(0));
    RunAppend(s0, climb + [Call(0)] + lost, [FetchAdd(0)]);
    SoloCall(s4, 1);
    RunAppend(s0, climb + [Call(0)] + lost + [FetchAdd(0)], OneCall(1));
    es := climb + [Call(0)] + lost + [FetchAdd(0)] + OneCall(1);
    assert Final(s0, es).results[|s4.results|] == Result(1, 0);
  }

  // ---- the code of `next` takes the steps of the machine ----

  predicate ByOthers(es: seq<Event>, t: Thread) {
    forall k :: 0 <= k < |es| ==> es[k].t != t
  }

  // The values returned to one thread, in order.
  function ReturnedTo(results: seq<Result>, t: Thread): seq<u16> {
    if results == [] then []
    else
      var before, last := ReturnedTo(results[..|results| - 1], t), results[|results| - 1];
      if last.t == t then before + [last.id] else before
  }

  lemma OneMore(results: seq<Result>, r: Result, t: Thread)
    ensures ReturnedTo(results + [r], t) == ReturnedTo(results, t) + if r.t == t then [r.id] else []
  {
    assert (results + [r])[..|results|] == results;
  }

  // The values an event returns to its thread: one if it is the update of a call.
  function ReturnedBy(s: State, e: Event): seq<u16>
    requires Enabled(s, e)
  {
    if e.FetchAdd? then [if s.cell == 0 then 1 else s.cell]
    else if e.Swap? && Updates(s, e) then [s.cell]
    else []
  }

  lemma StepReturns(s: State, e: Event, t: Thread)
    requires Enabled(s, e)
    ensures ReturnedTo(Next(s, e).results, t) ==
            ReturnedTo(s.results, t) + if e.t == t then ReturnedBy(s, e) else []
  {
    if e.FetchAdd? {
      OneMore(s.results, Result(e.t, if s.cell == 0 then 1 else s.cell), t);
    } else if e.Swap? && Updates(s, e) {
      OneMore(s.results, Result(e.t, s.cell), t);
    }
  }

  // Where the i-th value returned to a thread stands among all results.
  lemma {:induction false} Position(results: seq<Result>, t: Thread, i: nat) returns (k: nat)
    requires i < |ReturnedTo(results, t)|
    ensures k < |results| && results[k] == Result(t, ReturnedTo(results, t)[i])
    ensures |ReturnedTo(results[..k], t)| == i
  {
    var front := results[..|results| - 1];
    if i < |ReturnedTo(front, t)| {
      k := Position(front, t, i);
      assert front[..k] == results[..k];
    } else {
      k := |results| - 1;
    }
  }

  // Of at most 65535 updates without a fallback at 65535, no two calls get the same identifier,
  // neither of one thread nor of two.
  lemma NoIdTwice(start: PacketId, es: seq<Event>, t: Thread, i: nat, u: Thread, j: nat)
    requires Run(Init(start), es) && !FallsBackAtTop(Init(start), es)
    requires |Final(Init(start), es).results| <= MAX_ID && (t, i) != (u, j)
    requires i < |ReturnedTo(Final(Init(start), es).results, t)|
    requires j < |ReturnedTo(Final(Init(start), es).results, u)|
    ensures ReturnedTo(Final(Init(start), es).results, t)[i] != ReturnedTo(Final(Init(start), es).results, u)[j]
  {
    hide ReturnedTo, Run, Final, FallsBackAtTop;
    ResultsAreCyclic(start, es);
    var rs := Final(Init(start), es).results;
    var k := Position(rs, t, i);
    var l := Position(rs, u, j);
    assert k != l;
  }

  lemma {:induction false} OthersLeaveAlone(s: State, es: seq<Event>, t: Thread)
    requires Run(s, es) && ByOthers(es, t)
    ensures At(Final(s, es), t) == At(s, t)
    ensures ReturnedTo(Final(s, es).results, t) == ReturnedTo(s.results, t)
    decreases |es|
  {
    if es != [] {
      StepReturns(s, es[0], t);
      OthersLeaveAlone(Next(s, es[0]), es[1..], t);
    }
  }

  // The cell, and the threads that use it. Before each atomic operation of the caller the
  // others may have taken any number of steps; `log` records all steps taken.
  class SharedGenerator {
    var nextId: u16
    var sys: State
    ghost var log: seq<Event>
    ghost const start: State

    ghost predicate Valid()
      reads this
    {
      Run(start, log) && Final(start, log) == sys && nextId == sys.cell
    }

    constructor ()
      ensures Valid() && sys == Init(1) && start == Init(1) && log == []
    {
      nextId, sys := 1, Init(1);
      log, start := [], Init(1);
    }

    // What this thread's calls have returned.
    ghost function Mine(t: Thread): seq<u16>
      reads this
    {
      ReturnedTo(sys.results, t)
    }

    ghost method Record(before: State, es: seq<Event>)
      requires Run(start, log) && Final(start, log) == before && Run(before, es)
      requires sys == Final(before, es)
      modifies this`log
      ensures log == old(log) + es && Run(start, log) && Final(start, log) == sys
    {
      RunAppend(start, log, es);
      log := log + es;
    }

    method Others(t: Thread)
      requires Valid()
      modifies this
      ensures Valid() && old(log) <= log
      ensures At(sys, t) == old(At(sys, t)) && Mine(t) == old(Mine(t))
    {
      ghost var before := sys;
      assert Run(sys, []) && ByOthers([], t);
      var es: seq<Event> :| Run(sys, es) && ByOthers(es, t);
      OthersLeaveAlone(sys, es, t);
      sys := Final(sys, es);
      nextId := sys.cell;
      Record(before, es);
    }

    method Step(e: Event)
      requires Run(start, log) && Final(start, log) == sys
      requires Enabled(sys, e) && nextId == Next(sys, e).cell
      modifies this`sys, this`log
      ensures Valid() && sys == Next(old(sys), e) && log == old(log) + [e]
      ensures Mine(e.t) == old(Mine(e.t)) + ReturnedBy(old(sys), e)
    {
      ghost var before := sys;
      RunOne(sys, e);
      StepReturns(sys, e, e.t);
      sys := Next(sys, e);
      Record(before, [e]);
    }

    method LoadCell(t: Thread) returns (current: u16)
      requires Valid() && At(sys, t).Retrying? && At(sys, t).tries < MAX_RETRIES
      modifies this
      ensures Valid() && old(log) <= log
      ensures At(sys, t) == Loaded(current, old(At(sys, t)).tries) && Mine(t) == old(Mine(t))
    {
      Others(t);
      current := nextId;
      Step(Load(t));
    }

    method CompareExchange(t: Thread, current: u16, next: u16) returns (ok: bool)
      requires Valid() && At(sys, t).Loaded? && At(sys, t).current == current && next == After(current)
      modifies this
      ensures Valid() && old(log) <= log
      ensures !ok ==> At(sys, t) == Retrying(old(At(sys, t)).tries + 1) && Mine(t) == old(Mine(t))
      ensures ok ==> At(sys, t).Idle? && Mine(t) == old(Mine(t)) + [current]
    {
      Others(t);
      ok := nextId == current;
      if ok {
        nextId := next;
      }
      Step(Swap(t));
    }

    method FetchAddOne(t: Thread) returns (current: u16)
      requires Valid() && At(sys, t).Retrying? && At(sys, t).tries >= MAX_RETRIES
      modifies this
      ensures Valid() && old(log) <= log
      ensures At(sys, t) == if current == 0 then Resetting else Idle
      ensures Mine(t) == old(Mine(t)) + [if current == 0 then 1 else current]
    {
      Others(t);
      current := nextId;
      nextId := if current == 65535 then 0 else current + 1;
      Step(FetchAdd(t));
    }

    method StoreTwo(t: Thread)
      requires Valid() && At(sys, t).Resetting?
      modifies this
      ensures Valid() && old(log) <= log
      ensures At(sys, t).Idle? && Mine(t) == old(Mine(t))
    {
      Others(t);
      nextId := 2;
      Step(Store(t));
    }

    // Whatever the other threads do meanwhile, a call takes steps of the machine, makes one
    // update of its own, and returns the value that the machine lists for this update.
    method NextId(t: Thread) returns (id: u16)
      requires Valid() && At(sys, t).Idle?
      modifies this
      ensures Valid() && At(sys, t).Idle?
      ensures old(log) < log && Mine(t) == old(Mine(t)) + [id]
    {
      Step(Call(t));
      for i := 0 to MAX_RETRIES
        invariant Valid() && At(sys, t) == Retrying(i)
        invariant old(log) < log && Mine(t) == old(Mine(t))
      {
        var current := LoadCell(t);
        var next: u16 := if current == 65535 then 1 else current + 1;
        var ok := CompareExchange(t, current, next);
        if ok {
          return current;
        }
      }
      var current := FetchAddOne(t);
      if current == 0 {
        StoreTwo(t);
        return 1;
      }
      return current;
    }
  }
}
