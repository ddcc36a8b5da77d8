/**
 The connection state machine of crates/mqtt5-protocol/src/connection.rs, and the retries it
 allows.
 */
module Reconnect {
  import opened Options
  import opened Bytes
  import opened Backoff

  datatype ConnectionState = Disconnected | Connecting | Connected | Reconnecting(attempt: u32)

  datatype ConnectionInfo = ConnectionInfo(
    sessionPresent: bool,
    assignedClientId: Option<string>,
    serverKeepAlive: Option<u16>)

  const NO_INFO := ConnectionInfo(false, None, None)

  datatype Event =
    | ConnectingEvent
    | ConnectedEvent(sessionPresent: bool, keepAliveSecs: nat)
    | DisconnectedEvent
    | ReconnectingEvent(attempt: u32)
    | ReconnectFailedEvent

  // What the machine remembers besides its configuration.
  datatype Machine = Machine(state: ConnectionState, info: ConnectionInfo)

  const NEW_MACHINE := Machine(Disconnected, NO_INFO)

  datatype Op = Transition(event: Event) | SetInfo(info: ConnectionInfo)

  function StateAfter(e: Event): ConnectionState {
    match e
    case ConnectingEvent => Connecting
    case ConnectedEvent(_, _) => Connected
    case DisconnectedEvent => Disconnected
    case ReconnectingEvent(attempt) => Reconnecting(attempt)
    case ReconnectFailedEvent => Disconnected
  }

  // The two fields a Connected event carries, put into `info`.
  function WithSession(info: ConnectionInfo, e: Event): ConnectionInfo
    requires e.ConnectedEvent?
  {
    info.(sessionPresent := e.sessionPresent,
    serverKeepAlive := if e.keepAliveSecs < 65536 then Some(e.keepAliveSecs) else None)
  }

  function Apply(m: Machine, op: Op): Machine {
    match op
    case SetInfo(info) => m.(info := info)
    case Transition(e) =>
      Machine(StateAfter(e),
              match e
              case ConnectedEvent(_, _) => WithSession(m.info, e)
              case DisconnectedEvent => NO_INFO
              case ReconnectFailedEvent => NO_INFO
              case _ => m.info)
  }

  // A new machine after these operations.
  function After(ops: seq<Op>): Machine {
    if ops == [] then NEW_MACHINE else Apply(After(ops[..|ops| - 1]), ops[|ops| - 1])
  }

  class ConnectionStateMachine {
    var state: ConnectionState
    var info: ConnectionInfo
    var config: ReconnectConfig

    ghost function View(): Machine
      reads this
    {
      Machine(state, info)
    }

    constructor (config: ReconnectConfig)
      ensures View() == NEW_MACHINE && this.config == config
    {
      state, info, this.config := Disconnected, NO_INFO, config;
    }

    method Transition(event: Event) returns (s: ConnectionState)
      modifies this`state, this`info
      ensures View() == Apply(old(View()), Op.Transition(event)) && s == state
    {
      match event {
        case ConnectingEvent =>
          state := Connecting;
        case ConnectedEvent(present, secs) =>
          state := Connected;
          info := info.(sessionPresent := present);
          info := info.(serverKeepAlive := if secs < 65536 then Some(secs) else None);
        case DisconnectedEvent =>
          state := Disconnected;
          info := NO_INFO;
        case ReconnectFailedEvent =>
          state := Disconnected;
          info := NO_INFO;
        case ReconnectingEvent(attempt) =>
          state := Reconnecting(attempt);
      }
      s := state;
    }

    method SetConnectionInfo(info: ConnectionInfo)
      modifies this`info
      ensures View() == Apply(old(View()), SetInfo(info))
    {
      this.info := info;
    }
  }

  // ---- what the machine knows after any sequence of operations ----

  // The index of the last operation of a kind.
  function Last(ops: seq<Op>, kind: Op -> bool): (r: Option<nat>)
    ensures r.Some? ==> r.value < |ops| && kind(ops[r.value])
    ensures forall j :: (if r.Some? then r.value + 1 else 0) <= j < |ops| ==> !kind(ops[j])
  {
    if ops == [] then None
    else if kind(ops[|ops| - 1]) then Some(|ops| - 1)
    else Last(ops[..|ops| - 1], kind)
  }

  // Operations that forget all information held before them.
  predicate Overwrites(op: Op) {
    op.SetInfo? || op.event.DisconnectedEvent? || op.event.ReconnectFailedEvent?
  }

  predicate Connects(op: Op) {
    op.Transition? && op.event.ConnectedEvent?
  }

  // The information set last, or none if a disconnect or a failure came after it.
  function Ground(ops: seq<Op>): ConnectionInfo {
    var k := Last(ops, Overwrites);
    if k.Some? && ops[k.value].SetInfo? then ops[k.value].info else NO_INFO
  }

  // That, with session and keep-alive of the last Connected event since.
  function KnownInfo(ops: seq<Op>): ConnectionInfo {
    var k, c := Last(ops, Overwrites), Last(ops, Connects);
    if c.Some? && (k.None? || k.value < c.value) then WithSession(Ground(ops), ops[c.value].event)
    else Ground(ops)
  }

  function KnownState(ops: seq<Op>): ConnectionState {
    var k := Last(ops, (op: Op) => op.Transition?);
    if k.Some? then StateAfter(ops[k.value].event) else Disconnected
  }

  lemma {:induction false} MachineAfterRun(ops: seq<Op>)
    ensures After(ops) == Machine(KnownState(ops), KnownInfo(ops))
  {
    hide KnownState, KnownInfo, Apply;
    if ops == [] {
      KnownFromStart();
    } else {
      var front, op := ops[..|ops| - 1], ops[|ops| - 1];
      MachineAfterRun(front);
      assert ops == front + [op];
      StateAfterOp(front, op);
      InfoAfterOp(front, op);
      StateOfApply(After(front), op);
    }
  }

  lemma StateOfApply(m: Machine, op: Op)
    ensures Apply(m, op).state == if op.Transition? then StateAfter(op.event) else m.state
  {
  }

  lemma KnownFromStart()
    ensures KnownState([]) == Disconnected && KnownInfo([]) == NO_INFO
  {
  }

  lemma LastAfterOp(ops: seq<Op>, op: Op, kind: Op -> bool)
    ensures Last(ops + [op], kind) == if kind(op) then Some(|ops|) else Last(ops, kind)
  {
    assert (ops + [op])[..|ops|] == ops;
  }

  lemma StateAfterOp(ops: seq<Op>, op: Op)
    ensures KnownState(ops + [op]) == if op.Transition? then StateAfter(op.event) else KnownState(ops)
  {
    hide Last, StateAfter;
    LastAfterOp(ops, op, (op: Op) => op.Transition?);
  }

  lemma InfoAfterOp(ops: seq<Op>, op: Op)
    ensures KnownInfo(ops + [op]) == Apply(Machine(KnownState(ops), KnownInfo(ops)), op).info
  {
    hide Last, KnownState;
    LastAfterOp(ops, op, Overwrites);
    LastAfterOp(ops, op, Connects);
  }

  // The machine holds information of a connection that is not there.
  predicate Stale(m: Machine) {
    !m.state.Connected? && m.info != NO_INFO
  }

  // The events after which old information is still there.
  predicate Keeps(e: Event) {
    e.ConnectingEvent? || e.ReconnectingEvent?
  }

  predicate AllTransitions(ops: seq<Op>) {
    forall k :: 0 <= k < |ops| ==> ops[k].Transition?
  }

  // The k-th event connected, with something to tell, and only such events came after it.
  predicate LeftBehind(ops: seq<Op>, k: nat)
    requires AllTransitions(ops)
  {
    && k + 1 < |ops|
    && Connects(ops[k]) && WithSession(NO_INFO, ops[k].event) != NO_INFO
    && forall j :: k < j < |ops| ==> Keeps(ops[j].event)
  }

  // Events alone leave information behind exactly if a connection is followed by nothing but
  // Connecting and Reconnecting: only Disconnected and ReconnectFailed clear it.
  lemma StaleIff(ops: seq<Op>)
    requires AllTransitions(ops)
    ensures Stale(After(ops)) <==> exists k :: 0 <= k < |ops| && LeftBehind(ops, k)
  {
    MachineAfterRun(ops);
    var k, c := Last(ops, Overwrites), Last(ops, Connects);
    assert Ground(ops) == NO_INFO;
    if Stale(After(ops)) {
      assert LeftBehind(ops, c.value);
    }
    forall i | 0 <= i < |ops| && LeftBehind(ops, i) ensures Stale(After(ops)) {
      assert c == Some(i);
      assert Last(ops, (op: Op) => op.Transition?) == Some(|ops| - 1);
    }
  }

  // For instance, a reconnect that no Disconnected event announced.
  lemma ReconnectingKeepsSession()
    ensures
      var ops := [Transition(ConnectedEvent(true, 60)), Transition(ReconnectingEvent(0))];
      After(ops) == Machine(Reconnecting(0), ConnectionInfo(true, None, Some(60))) && Stale(After(ops))
  {
    var ops := [Transition(ConnectedEvent(true, 60)), Transition(ReconnectingEvent(0))];
    assert ops[..1] == [ops[0]] && [ops[0]][..0] == [];
    assert After([ops[0]]) == Apply(NEW_MACHINE, ops[0]);
  }

  // The keep-alive of the server is kept if it fits in 16 bits.
  lemma KeepAliveFits(present: bool, secs: nat)
    ensures
      After([Transition(ConnectedEvent(present, secs))]) ==
      Machine(Connected, ConnectionInfo(present, None, if secs <= 65535 then Some(secs) else None))
  {
    var op := Transition(ConnectedEvent(present, secs));
    assert [op][..0] == [];
    assert After([]) == NEW_MACHINE;
  }

  // ---- retrying ----

  predicate ShouldRetry(c: ReconnectConfig, attempt: u32) {
    c.enabled && (c.maxAttempts.None? || attempt < c.maxAttempts.value)
  }

  // `attempt + 1`, which wraps where overflow is not checked.
  function NextAttempt(attempt: u32): u32 {
    if attempt == U32_MAX then 0 else attempt + 1
  }

  predicate ShouldReconnect(s: ConnectionState, c: ReconnectConfig) {
    match s
    case Disconnected => c.enabled
    case Reconnecting(attempt) => ShouldRetry(c, NextAttempt(attempt))
    case _ => false
  }

  // A delay is offered in exactly the states in which a reconnect should be tried.
  function NextReconnectDelay(s: ConnectionState, c: ReconnectConfig): (d: Option<Duration>)
    ensures d.Some? <==> ShouldReconnect(s, c)
  {
    match s
    case Disconnected => if c.enabled then Some(DelayOf(c, 0)) else None
    case Reconnecting(attempt) => if ShouldRetry(c, NextAttempt(attempt)) then Some(DelayOf(c, attempt)) else None
    case _ => None
  }

  function Sum(ds: seq<Duration>): Duration {
    if ds == [] then 0 else Sum(ds[..|ds| - 1]) + ds[|ds| - 1]
  }

  // The waits of a run with n attempts: the initial delay comes twice.
  function WaitBefore(c: ReconnectConfig, k: nat): Duration {
    DelayOf(c, if k == 0 then 0 else k - 1)
  }

  lemma {:induction false} SumBounded(ds: seq<Duration>, bound: Duration)
    requires forall k :: 0 <= k < |ds| ==> ds[k] <= bound
    ensures Sum(ds) <= |ds| * bound
  {
    if ds != [] {
      SumBounded(ds[..|ds| - 1], bound);
      assert |ds| * bound == (|ds| - 1) * bound + bound;
    }
  }

  // A client that has lost its connection and keeps trying while the machine says so. With a
  // limit of m attempts it makes max(1, m) of them, none of which succeeds, and then stops.
  method RetryUntilRefused(sm: ConnectionStateMachine, m: u32) returns (waits: seq<Duration>)
    requires sm.state == Disconnected
    requires sm.config.enabled && sm.config.maxAttempts == Some(m)
    modifies sm
    ensures sm.config == old(sm.config)
    ensures |waits| == if m == 0 then 1 else m
    ensures sm.state == Reconnecting(|waits| - 1) && !ShouldReconnect(sm.state, sm.config)
    ensures forall k :: 0 <= k < |waits| ==> waits[k] == WaitBefore(sm.config, k)
    ensures
      var bound := if sm.config.initialDelay <= sm.config.maxDelay then sm.config.maxDelay else sm.config.initialDelay;
      Sum(waits) <= |waits| * bound
  {
    waits := [];
    var c := sm.config;
    while ShouldReconnect(sm.state, sm.config)
      invariant sm.config == c
      invariant |waits| <= if m == 0 then 1 else m
      invariant sm.state == if waits == [] then Disconnected else Reconnecting(|waits| - 1)
      invariant forall k :: 0 <= k < |waits| ==> waits[k] == WaitBefore(c, k)
      decreases m + 1 - |waits|
    {
      var delay := NextReconnectDelay(sm.state, sm.config);
      waits := waits + [delay.value];
      var _ := sm.Transition(ReconnectingEvent(|waits| - 1));
    }
    forall k | 0 <= k < |waits|
      ensures waits[k] <= if c.initialDelay <= c.maxDelay then c.maxDelay else c.initialDelay
    {
      DelayBounded(c, if k == 0 then 0 else k - 1);
    }
    SumBounded(waits, if c.initialDelay <= c.maxDelay then c.maxDelay else c.initialDelay);
  }

  // Retrying is never refused exactly when it is enabled without a limit.
  lemma NeverRefusesIff(c: ReconnectConfig)
    ensures (forall attempt: u32 :: ShouldReconnect(Reconnecting(attempt), c)) <==> c.enabled && c.maxAttempts.None?
  {
    if c.enabled && c.maxAttempts.Some? {
      assert !ShouldReconnect(Reconnecting(U32_MAX - 1), c);
    } else if !c.enabled {
      assert !ShouldReconnect(Reconnecting(0), c);
    }
  }

  // A limit of m attempts is kept in every state but one: after attempt 2^32 - 1 the next
  // number wraps to 0, which is below any limit but 0.
  lemma LimitKeptIff(c: ReconnectConfig, attempt: u32)
    requires c.enabled && c.maxAttempts.Some?
    ensures (ShouldReconnect(Reconnecting(attempt), c) <==> attempt as int + 1 < c.maxAttempts.value)
       <==> !(attempt == U32_MAX && c.maxAttempts.value > 0)
    ensures c.maxAttempts.value > 0 ==> ShouldReconnect(Reconnecting(U32_MAX), c)
  {
  }

  // What each event means for the next attempt, whatever happened before: none while a
  // connection is being made or up; after a disconnect or a failed reconnect the initial delay,
  // if reconnecting is enabled; after attempt a its delay, if one more is allowed.
  lemma OfferedAfter(ops: seq<Op>, e: Event, c: ReconnectConfig)
    ensures
      var offered := NextReconnectDelay(After(ops + [Transition(e)]).state, c);
      match e
      case ConnectingEvent => offered == None
      case ConnectedEvent(_, _) => offered == None
      case DisconnectedEvent => offered == if c.enabled then Some(c.initialDelay) else None
      case ReconnectFailedEvent => offered == if c.enabled then Some(c.initialDelay) else None
      case ReconnectingEvent(a) =>
        a < U32_MAX ==>
          offered == if c.enabled && (c.maxAttempts == None || a as int + 1 < c.maxAttempts.value)
          then Some(DelayOf(c, a)) else None
  {
    assert (ops + [Transition(e)])[..|ops|] == ops;
  }

  // For instance, with 1 s doubled up to 30 s and at most 5 attempts.
  lemma Schedule()
    ensures
      var c := ReconnectConfig(true, FromMillis(1_000), FromMillis(30_000), 20, Some(5));
      && DelayOf(c, 0) == FromMillis(1_000) && DelayOf(c, 1) == FromMillis(2_000) && DelayOf(c, 2) == FromMillis(4_000)
      && DelayOf(c, 3) == FromMillis(8_000) && DelayOf(c, 4) == FromMillis(16_000) && DelayOf(c, 5) == FromMillis(30_000)
      && NextReconnectDelay(Reconnecting(3), c) == Some(FromMillis(8_000))
      && NextReconnectDelay(Reconnecting(4), c) == None
  {
    var c := ReconnectConfig(true, FromMillis(1_000), FromMillis(30_000), 20, Some(5));
    assert InitialMs(c) == 1_000 && MaxMs(c) == 30_000;
    assert Turns(c, 0) == Some(10_000);
    assert Turns(c, 1) == Some(20_000);
    assert Turns(c, 2) == Some(40_000);
    assert Turns(c, 3) == Some(80_000);
    assert Turns(c, 4) == Some(160_000);
    assert Turns(c, 5) == None;
  }
}
