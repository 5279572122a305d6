/** The subscriber registry of the `/sse` handler together with the idle-exit
    flag, as a sequential state machine: one interleaving of the connection
    handlers, each running its connect part or its disconnect part without
    interruption. Channels are identified by the order in which they were
    made. */
module Subscribers {
  import opened Wrappers

  /** `channels`: the keys of the message-channel map.
      `routineOpen`: the `isRoutineOpen` flag, set while an idle timer is armed.
      `idleWatchers`: how many idle-timer routines were started and have not
      yet been told to quit.
      `nextChannel`: the identity the next `make(chan)` will produce. */
  datatype Registry = Registry(channels: set<nat>, routineOpen: bool, idleWatchers: nat, nextChannel: nat)

  /** The state at process start: no channels, no timer. */
  const Initial: Registry := Registry({}, false, 0, 0)

  /** A completed connect: the registry afterwards and the new channel. */
  datatype Connection = Connection(registry: Registry, channel: nat)

  /** What every reachable state satisfies: the timer flag is set exactly
      when the registry is empty after at least one connection was made,
      exactly one idle routine is pending exactly when the flag is set, and
      every registered channel was made before. */
  predicate Valid(r: Registry) {
    && (r.routineOpen <==> r.channels == {} && r.nextChannel > 0)
    && r.idleWatchers == (if r.routineOpen then 1 else 0)
    && (forall ch :: ch in r.channels ==> ch < r.nextChannel)
  }

  /** A handler opening its stream: it makes a fresh channel, registers it and,
      when the timer flag is set, sends on the unbuffered `quit` channel and
      clears the flag. With no idle routine left to receive, that send never
      completes and the connect does not finish (`None`). */
  function Connect(r: Registry): (c: Option<Connection>)
    ensures c.Some? <==> (r.routineOpen ==> r.idleWatchers > 0)
    ensures c.Some? ==> r.nextChannel <= c.value.channel < c.value.registry.nextChannel
    ensures c.Some? ==> c.value.registry.channels - {c.value.channel} == r.channels - {c.value.channel}
    ensures c.Some? ==> c.value.channel in c.value.registry.channels
    ensures c.Some? ==> !c.value.registry.routineOpen
    ensures c.Some? ==> c.value.registry.idleWatchers == (if r.routineOpen then r.idleWatchers - 1 else r.idleWatchers)
  {
    var ch := r.nextChannel;
    var channels := r.channels + {ch};
    if r.routineOpen then
      if r.idleWatchers == 0 then None
      else Some(Connection(Registry(channels, false, r.idleWatchers - 1, ch + 1), ch))
    else Some(Connection(Registry(channels, r.routineOpen, r.idleWatchers, ch + 1), ch))
  }

  /** A handler whose request context is done: it deletes its channel and,
      when that leaves the registry empty, starts an idle routine and sets the
      timer flag. */
  function Disconnect(r: Registry, ch: nat): (r': Registry)
    ensures r'.channels == r.channels - {ch}
    ensures r'.routineOpen <==> (r'.channels == {} || r.routineOpen)
    ensures r'.idleWatchers == r.idleWatchers + (if r'.channels == {} then 1 else 0)
    ensures r'.nextChannel == r.nextChannel
  {
    var channels := r.channels - {ch};
    if |channels| == 0 then Registry(channels, true, r.idleWatchers + 1, r.nextChannel)
    else Registry(channels, r.routineOpen, r.idleWatchers, r.nextChannel)
  }

  /** One lifecycle event of some connection. */
  datatype Event = Open | Close(channel: nat)

  /** Applying one event. A handler only ever closes the channel it opened, so
      closing a channel that is not registered is not a possible step. */
  function Apply(r: Registry, e: Event): Option<Registry>
  {
    match e
    case Open =>
      (match Connect(r)
       case None => None
       case Some(c) => Some(c.registry))
    case Close(ch) =>
      if ch in r.channels then Some(Disconnect(r, ch)) else None
  }

  /** Applying a sequence of events in order; `None` when some step is not
      possible. */
  function Run(r: Registry, trace: seq<Event>): Option<Registry>
    decreases |trace|
  {
    if |trace| == 0 then Some(r)
    else
      match Apply(r, trace[0])
      case None => None
      case Some(r') => Run(r', trace[1..])
  }

  lemma InitialValid()
    ensures Valid(Initial)
  {
  }

  /** Connect from a reachable state never blocks on `quit`, adds exactly one
      new channel, keeps the others, and leaves no timer armed. */
  lemma ConnectKeepsValid(r: Registry)
    requires Valid(r)
    ensures Connect(r).Some?
    ensures Connect(r).value.channel !in r.channels
    ensures Connect(r).value.registry.channels == r.channels + {Connect(r).value.channel}
    ensures |Connect(r).value.registry.channels| == |r.channels| + 1
    ensures !Connect(r).value.registry.routineOpen && Connect(r).value.registry.idleWatchers == 0
    ensures Valid(Connect(r).value.registry)
  {
    var c := Connect(r).value;
    assert c.channel == r.nextChannel;
    assert c.channel !in r.channels;
  }

  /** Disconnecting a registered channel from a reachable state removes only
      that channel, arms the timer exactly when the registry becomes empty,
      and never does so while a timer is already armed. */
  lemma DisconnectKeepsValid(r: Registry, ch: nat)
    requires Valid(r)
    requires ch in r.channels
    ensures !r.routineOpen && r.idleWatchers == 0
    ensures |Disconnect(r, ch).channels| == |r.channels| - 1
    ensures Disconnect(r, ch).routineOpen <==> Disconnect(r, ch).channels == {}
    ensures Disconnect(r, ch).idleWatchers <= 1
    ensures Valid(Disconnect(r, ch))
  {
  }

  /** Every state reached from a valid one is valid: the armed flag implies an
      empty registry, and at most one idle routine is ever pending. */
  lemma {:induction false} RunKeepsValid(r: Registry, trace: seq<Event>)
    requires Valid(r)
    ensures Run(r, trace).Some? ==> Valid(Run(r, trace).value)
    ensures Run(r, trace).Some? ==> Run(r, trace).value.idleWatchers <= 1
    ensures Run(r, trace).Some? ==>
      (Run(r, trace).value.routineOpen <==> Run(r, trace).value.channels == {} && Run(r, trace).value.nextChannel > 0)
    decreases |trace|
  {
    if |trace| > 0 {
      match trace[0]
      case Open =>
        ConnectKeepsValid(r);
        RunKeepsValid(Connect(r).value.registry, trace[1..]);
      case Close(ch) =>
        if ch in r.channels {
          DisconnectKeepsValid(r, ch);
          RunKeepsValid(Disconnect(r, ch), trace[1..]);
        }
    }
  }

  /** From a reachable state the only impossible step is closing a channel
      that is not registered: opening a stream never deadlocks on `quit`. */
  lemma ApplyStopsOnlyAtForeignClose(r: Registry, e: Event)
    requires Valid(r)
    ensures Apply(r, e).None? <==> e.Close? && e.channel !in r.channels
  {
  }

  /** A run of opens from a reachable state always completes. */
  lemma {:induction false} OpensNeverBlock(r: Registry, trace: seq<Event>)
    requires Valid(r)
    requires forall i :: 0 <= i < |trace| ==> trace[i].Open?
    ensures Run(r, trace).Some?
    decreases |trace|
  {
    if |trace| > 0 {
      ConnectKeepsValid(r);
      assert forall i :: 0 <= i < |trace| - 1 ==> trace[1..][i] == trace[i + 1];
      OpensNeverBlock(Connect(r).value.registry, trace[1..]);
    }
  }

  /** The reload scenario: the only tab disconnects, arming the timer, and a
      new tab connects before it fires, disarming it. */
  lemma ReloadDisarmsTimer()
    ensures Run(Initial, [Open, Close(0)]) == Some(Registry({}, true, 1, 1))
    ensures Run(Initial, [Open, Close(0), Open]) == Some(Registry({1}, false, 0, 2))
  {
  }

  /** Without the one-close-per-connection discipline the flag would not keep
      its promise: a second close on an empty, armed registry starts a second
      idle routine. */
  lemma ForeignCloseStartsSecondTimer(r: Registry, ch: nat)
    requires r.channels == {} && r.routineOpen && r.idleWatchers == 1
    ensures Disconnect(r, ch).idleWatchers == 2
  {
  }
}
