/**
 * Event fan-out under a read-write lock: sends of several senders overlap, registration waits for
 * them. Every listener receives exactly the matching events sent while it was registered.
 */
module Listeners {
  import opened Prelude
  import opened Tables

  /** The identity of a listener's channel. */
  type Channel = nat

  type SendId = nat

  /** What a listener watches. Registry and artifact watches never name kinds. */
  datatype Watch = Watch(project: string, kinds: seq<Kind>)

  datatype Event = Event(eventType: string, project: string, kind: Kind, item: string)

  predicate Matches(w: Watch, e: Event) {
    (w.project == "" || w.project == e.project) && (w.kinds == [] || e.kind in w.kinds)
  }

  // ---------- Steps ----------

  /**
   * Registration takes the lock for writing, so it is one step. A send takes it for reading: it
   * begins, visits each listener in some order, and ends; steps of other sends may come in between.
   */
  datatype Step =
    | Add(channel: Channel, watch: Watch)
    | Remove(channel: Channel)
    | Begin(id: SendId, event: Event)
    | Visit(id: SendId, channel: Channel)
    | End(id: SendId)

  type Trace = seq<Step>

  datatype Delivery = Delivery(id: SendId, event: Event)

  /** A send in progress and the listeners it has yet to visit. */
  datatype Sending = Sending(event: Event, pending: set<Channel>)

  /** A send that has begun, with the listeners of that moment. */
  datatype Started = Started(event: Event, listeners: map<Channel, Watch>)

  datatype State = State(
    listeners: map<Channel, Watch>, active: map<SendId, Sending>, started: map<SendId, Started>,
    logs: map<Channel, seq<Delivery>>)
  {
    function Log(ch: Channel): seq<Delivery> { if ch in logs then logs[ch] else [] }
  }

  const INITIAL := State(map[], map[], map[], map[])

  /** The lock admits the step. */
  predicate Enabled(s: State, step: Step) {
    match step
    case Add(_, _) => s.active == map[]
    case Remove(_) => s.active == map[]
    case Begin(id, _) => id !in s.started
    case Visit(id, ch) => id in s.active && ch in s.active[id].pending
    case End(id) => id in s.active && s.active[id].pending == {}
  }

  function Next(s: State, step: Step): State
    requires Enabled(s, step)
  {
    match step
    case Add(ch, w) => s.(listeners := s.listeners[ch := w])
    case Remove(ch) => s.(listeners := s.listeners - {ch})
    case Begin(id, e) =>
      s.(active := s.active[id := Sending(e, s.listeners.Keys)], started := s.started[id := Started(e, s.listeners)])
    case Visit(id, ch) =>
      var e := s.active[id].event;
      s.(active := s.active[id := Sending(e, s.active[id].pending - {ch})],
         logs := if ch in s.listeners && Matches(s.listeners[ch], e) then s.logs[ch := s.Log(ch) + [Delivery(id, e)]]
                 else s.logs)
    case End(id) => s.(active := s.active - {id})
  }

  /** The state after the steps, if the lock admits each of them in turn. */
  function Execute(trace: Trace): Option<State> {
    if trace == [] then Some(INITIAL)
    else
      match Execute(trace[..|trace| - 1])
      case None => None
      case Some(s) => if Enabled(s, trace[|trace| - 1]) then Some(Next(s, trace[|trace| - 1])) else None
  }

  predicate IsRun(trace: Trace) { Execute(trace).Some? }

  // ---------- The invariant ----------

  /** The send has visited the channel, which was registered for the event when it began. */
  predicate Delivered(s: State, ch: Channel, id: SendId) {
    && id in s.started && ch in s.started[id].listeners
    && Matches(s.started[id].listeners[ch], s.started[id].event)
    && !(id in s.active && ch in s.active[id].pending)
  }

  /** While a send is in progress, the listeners are those it began with. */
  ghost predicate ActiveFits(s: State, id: SendId)
    requires id in s.active
  {
    && id in s.started && s.started[id] == Started(s.active[id].event, s.listeners)
    && s.active[id].pending <= s.listeners.Keys
  }

  /** The log holds exactly what was delivered, each once. */
  ghost predicate LogFits(s: State, ch: Channel) {
    && NoDup(s.Log(ch))
    && forall d :: d in s.Log(ch) <==> Delivered(s, ch, d.id) && d.event == s.started[d.id].event
  }

  ghost predicate Consistent(s: State) {
    (forall id :: id in s.active ==> ActiveFits(s, id)) && (forall ch :: LogFits(s, ch))
  }

  lemma BeginKeepsLog(s: State, id: SendId, e: Event, ch: Channel)
    requires Consistent(s) && id !in s.started
    ensures LogFits(Next(s, Begin(id, e)), ch)
  {
    var s' := Next(s, Begin(id, e));
    assert LogFits(s, ch) && s'.Log(ch) == s.Log(ch);
    forall d: Delivery
      ensures d in s'.Log(ch) <==> Delivered(s', ch, d.id) && d.event == s'.started[d.id].event
    {
      if d.id == id {
        assert !Delivered(s, ch, id);
      } else {
        assert Delivered(s', ch, d.id) <==> Delivered(s, ch, d.id);
      }
    }
  }

  lemma VisitKeepsLog(s: State, id: SendId, visited: Channel, ch: Channel)
    requires Consistent(s) && Enabled(s, Visit(id, visited))
    ensures LogFits(Next(s, Visit(id, visited)), ch)
  {
    var s', e := Next(s, Visit(id, visited)), s.active[id].event;
    assert ActiveFits(s, id) && LogFits(s, ch);
    if ch != visited {
      assert s'.Log(ch) == s.Log(ch);
      forall d: Delivery
        ensures Delivered(s', ch, d.id) <==> Delivered(s, ch, d.id)
      {
      }
    } else {
      assert !Delivered(s, ch, id);
      forall d: Delivery
        ensures d in s'.Log(ch) <==> Delivered(s', ch, d.id) && d.event == s'.started[d.id].event
      {
        if d.id != id {
          assert Delivered(s', ch, d.id) <==> Delivered(s, ch, d.id);
        } else {
          assert Delivered(s', ch, id) <==> Matches(s.listeners[ch], e);
        }
      }
    }
  }

  lemma EndKeepsLog(s: State, id: SendId, ch: Channel)
    requires Consistent(s) && Enabled(s, End(id))
    ensures LogFits(Next(s, End(id)), ch)
  {
    var s' := Next(s, End(id));
    assert LogFits(s, ch) && s'.Log(ch) == s.Log(ch);
    forall d: Delivery
      ensures Delivered(s', ch, d.id) <==> Delivered(s, ch, d.id)
    {
    }
  }

  lemma StepKeepsLogs(s: State, step: Step, ch: Channel)
    requires Consistent(s) && Enabled(s, step)
    ensures LogFits(Next(s, step), ch)
  {
    match step
    case Begin(id, e) => BeginKeepsLog(s, id, e, ch);
    case Visit(id, visited) => VisitKeepsLog(s, id, visited, ch);
    case End(id) => EndKeepsLog(s, id, ch);
    case _ =>
      var s' := Next(s, step);
      assert LogFits(s, ch) && s'.Log(ch) == s.Log(ch);
      assert forall id :: Delivered(s', ch, id) <==> Delivered(s, ch, id);
  }

  lemma StepKeepsConsistency(s: State, step: Step)
    requires Consistent(s) && Enabled(s, step)
    ensures Consistent(Next(s, step))
  {
    var s' := Next(s, step);
    forall ch
      ensures LogFits(s', ch)
    {
      StepKeepsLogs(s, step, ch);
    }
    forall id | id in s'.active
      ensures ActiveFits(s', id)
    {
      if id in s.active {
        assert ActiveFits(s, id);
      }
    }
  }

  lemma {:induction false} RunIsConsistent(trace: Trace)
    requires IsRun(trace)
    ensures Consistent(Execute(trace).value)
  {
    if trace == [] {
      assert forall ch :: INITIAL.Log(ch) == [];
    } else {
      RunIsConsistent(trace[..|trace| - 1]);
      StepKeepsConsistency(Execute(trace[..|trace| - 1]).value, trace[|trace| - 1]);
    }
  }

  // ---------- Runs ----------

  lemma {:induction false} PrefixIsRun(trace: Trace, n: nat)
    requires IsRun(trace) && n <= |trace|
    ensures IsRun(trace[..n])
  {
    if n < |trace| {
      assert trace[..|trace| - 1][..n] == trace[..n];
      PrefixIsRun(trace[..|trace| - 1], n);
    } else {
      assert trace[..n] == trace;
    }
  }

  /** What a later state still knows of an earlier one. */
  ghost predicate Extends(s: State, later: State) {
    && (forall id :: id in s.started ==> id in later.started && later.started[id] == s.started[id])
    && (forall id :: id in s.started && id !in s.active ==> id !in later.active)
    && (forall ch :: s.Log(ch) <= later.Log(ch))
  }

  lemma StepExtends(s: State, step: Step)
    requires Enabled(s, step)
    ensures Extends(s, Next(s, step))
  {
  }

  lemma {:induction false} RunExtends(trace: Trace, n: nat)
    requires IsRun(trace) && n <= |trace|
    ensures IsRun(trace[..n]) && Extends(Execute(trace[..n]).value, Execute(trace).value)
    decreases |trace|
  {
    PrefixIsRun(trace, n);
    if n < |trace| {
      var before := trace[..|trace| - 1];
      assert before[..n] == trace[..n];
      RunExtends(before, n);
      StepExtends(Execute(before).value, trace[|trace| - 1]);
    } else {
      assert trace[..n] == trace;
    }
  }

  predicate Concerns(s: Step, ch: Channel) {
    (s.Add? || s.Remove?) && s.channel == ch
  }

  /** Before step i, the last step about the channel added it with the watch. */
  ghost predicate Watching(trace: Trace, i: nat, ch: Channel, w: Watch)
    requires i <= |trace|
  {
    exists j :: 0 <= j < i && trace[j] == Add(ch, w) && forall k :: j < k < i ==> !Concerns(trace[k], ch)
  }

  lemma WatchingPrefix(trace: Trace, n: nat, i: nat, ch: Channel, w: Watch)
    requires i <= n <= |trace|
    ensures Watching(trace[..n], i, ch, w) <==> Watching(trace, i, ch, w)
  {
    if Watching(trace, i, ch, w) {
      var j :| 0 <= j < i && trace[j] == Add(ch, w) && forall k :: j < k < i ==> !Concerns(trace[k], ch);
      assert trace[..n][j] == Add(ch, w);
    }
    if Watching(trace[..n], i, ch, w) {
      var j :| 0 <= j < i && trace[..n][j] == Add(ch, w) && forall k :: j < k < i ==> !Concerns(trace[..n][k], ch);
      forall k | j < k < i
        ensures !Concerns(trace[k], ch)
      {
        assert trace[..n][k] == trace[k];
      }
      assert trace[j] == Add(ch, w);
    }
  }

  lemma WatchingStep(trace: Trace, ch: Channel, w: Watch)
    requires trace != []
    ensures var n := |trace| - 1;
            Watching(trace, n + 1, ch, w) <==>
            if Concerns(trace[n], ch) then trace[n] == Add(ch, w) else Watching(trace, n, ch, w)
  {
    var n := |trace| - 1;
    if Watching(trace, n + 1, ch, w) {
      var j :| 0 <= j < n + 1 && trace[j] == Add(ch, w) && forall k :: j < k < n + 1 ==> !Concerns(trace[k], ch);
      assert Concerns(trace[n], ch) ==> j == n;
    }
    if !Concerns(trace[n], ch) && Watching(trace, n, ch, w) {
      var j :| 0 <= j < n && trace[j] == Add(ch, w) && forall k :: j < k < n ==> !Concerns(trace[k], ch);
      assert forall k :: j < k < n + 1 ==> !Concerns(trace[k], ch);
    }
  }

  /** A channel is registered exactly under the watch that the last step about it added. */
  lemma {:induction false} RegisteredIsWatching(trace: Trace, ch: Channel, w: Watch)
    requires IsRun(trace)
    ensures ch in Execute(trace).value.listeners && Execute(trace).value.listeners[ch] == w <==>
            Watching(trace, |trace|, ch, w)
  {
    if trace != [] {
      var n := |trace| - 1;
      RegisteredIsWatching(trace[..n], ch, w);
      WatchingPrefix(trace, n, n, ch, w);
      WatchingStep(trace, ch, w);
    }
  }

  // ---------- Exact fan-out ----------

  /** What the channel has received. */
  function Received(s: State, ch: Channel): seq<Event> {
    MapSeq(EventOf, s.Log(ch))
  }

  function EventOf(d: Delivery): Event { d.event }

  lemma BeganWith(trace: Trace, i: nat)
    requires IsRun(trace) && i < |trace| && trace[i].Begin?
    ensures IsRun(trace[..i]) && IsRun(trace[..i + 1])
    ensures var s, id := Execute(trace[..i]).value, trace[i].id;
            && id !in s.started
            && Execute(trace[..i + 1]).value.started == s.started[id := Started(trace[i].event, s.listeners)]
  {
    PrefixIsRun(trace, i);
    PrefixIsRun(trace, i + 1);
    assert trace[..i + 1][..i] == trace[..i];
  }

  lemma EndedBy(trace: Trace, j: nat)
    requires IsRun(trace) && j < |trace| && trace[j].End?
    ensures IsRun(trace[..j + 1])
    ensures var s, id := Execute(trace[..j + 1]).value, trace[j].id;
            id in s.started && id !in s.active
  {
    PrefixIsRun(trace, j);
    PrefixIsRun(trace, j + 1);
    assert trace[..j + 1][..j] == trace[..j];
    RunIsConsistent(trace[..j]);
    assert ActiveFits(Execute(trace[..j]).value, trace[j].id);
  }

  /**
   * When the send begins at step i, the channel is registered, for no project in particular or for the
   * project of the event, and for no kinds in particular or for kinds with that of the event.
   */
  ghost predicate Wanted(trace: Trace, i: nat, ch: Channel)
    requires i < |trace| && trace[i].Begin?
  {
    exists project, kinds ::
      && Watching(trace, i, ch, Watch(project, kinds))
      && (project == "" || project == trace[i].event.project)
      && (kinds == [] || trace[i].event.kind in kinds)
  }

  lemma WantedIsRegistered(trace: Trace, i: nat, ch: Channel)
    requires IsRun(trace) && i < |trace| && trace[i].Begin?
    ensures IsRun(trace[..i])
    ensures var s := Execute(trace[..i]).value;
            Wanted(trace, i, ch) <==> ch in s.listeners && Matches(s.listeners[ch], trace[i].event)
  {
    PrefixIsRun(trace, i);
    forall w
      ensures ch in Execute(trace[..i]).value.listeners && Execute(trace[..i]).value.listeners[ch] == w <==>
              Watching(trace, i, ch, w)
    {
      RegisteredIsWatching(trace[..i], ch, w);
      WatchingPrefix(trace, i, i, ch, w);
    }
    var s := Execute(trace[..i]).value;
    if ch in s.listeners {
      assert s.listeners[ch] == Watch(s.listeners[ch].project, s.listeners[ch].kinds);
    }
  }

  /**
   * Exact fan-out, over any interleaving that the lock admits. A send that begins at step i and has
   * ended reaches exactly the channels that ask for its event at step i; one that is still in
   * progress reaches no other channel. No channel receives a send twice.
   */
  lemma ExactFanOut(trace: Trace, i: nat, ch: Channel)
    requires IsRun(trace) && i < |trace| && trace[i].Begin?
    ensures var s, d := Execute(trace).value, Delivery(trace[i].id, trace[i].event);
            && NoDup(s.Log(ch))
            && (d in s.Log(ch) ==> Wanted(trace, i, ch))
            && (d.id !in s.active ==> (d in s.Log(ch) <==> Wanted(trace, i, ch)))
  {
    hide Execute, Wanted, Extends;
    var s, id := Execute(trace).value, trace[i].id;
    BeganWith(trace, i);
    WantedIsRegistered(trace, i, ch);
    RunExtends(trace, i + 1);
    StartedStays(trace, i + 1, id);
    RunIsConsistent(trace);
    assert LogFits(s, ch);
  }

  lemma StartedStays(trace: Trace, n: nat, id: SendId)
    requires IsRun(trace) && n <= |trace| && IsRun(trace[..n]) && id in Execute(trace[..n]).value.started
    ensures id in Execute(trace).value.started
    ensures Execute(trace).value.started[id] == Execute(trace[..n]).value.started[id]
  {
    RunExtends(trace, n);
  }

  lemma EndedMeansInactive(trace: Trace, j: nat)
    requires IsRun(trace) && j < |trace| && trace[j].End?
    ensures trace[j].id !in Execute(trace).value.active
  {
    EndedBy(trace, j);
    RunExtends(trace, j + 1);
  }

  /** A send whose Begin and End steps are in the run has reached exactly the channels that asked for it. */
  lemma EndedSendReachesExactly(trace: Trace, i: nat, j: nat, ch: Channel)
    requires IsRun(trace) && i < |trace| && j < |trace| && trace[i].Begin? && trace[j] == End(trace[i].id)
    ensures Delivery(trace[i].id, trace[i].event) in Execute(trace).value.Log(ch) <==> Wanted(trace, i, ch)
  {
    hide Execute, Wanted;
    EndedMeansInactive(trace, j);
    ExactFanOut(trace, i, ch);
  }

  /** Everything a channel has received was sent by some send of the run. */
  lemma {:induction false} ReceivedWasSent(trace: Trace, ch: Channel, d: Delivery)
    requires IsRun(trace) && d in Execute(trace).value.Log(ch)
    ensures Begin(d.id, d.event) in trace
  {
    RunIsConsistent(trace);
    assert LogFits(Execute(trace).value, ch);
    StartedWasBegun(trace, d.id);
  }

  /** Every delivery comes from a send that the channel, as it was last registered before, asked for. */
  lemma ReceivedWasWanted(trace: Trace, ch: Channel, d: Delivery)
    requires IsRun(trace) && d in Execute(trace).value.Log(ch)
    ensures exists i :: 0 <= i < |trace| && trace[i] == Begin(d.id, d.event) && Wanted(trace, i, ch)
  {
    hide Execute, Wanted;
    ReceivedWasSent(trace, ch, d);
    var i :| 0 <= i < |trace| && trace[i] == Begin(d.id, d.event);
    ExactFanOut(trace, i, ch);
  }

  lemma {:induction false} StartedWasBegun(trace: Trace, id: SendId)
    requires IsRun(trace) && id in Execute(trace).value.started
    ensures Begin(id, Execute(trace).value.started[id].event) in trace
  {
    var n := |trace| - 1;
    if id in Execute(trace[..n]).value.started {
      StartedWasBegun(trace[..n], id);
    }
    assert trace == trace[..n] + [trace[n]];
  }

  lemma NotYetReceived(s: State, ch: Channel, id: SendId)
    requires Consistent(s) && id !in s.started
    ensures forall m :: 0 <= m < |s.Log(ch)| ==> s.Log(ch)[m].id != id
  {
    assert LogFits(s, ch);
    forall m | 0 <= m < |s.Log(ch)|
      ensures s.Log(ch)[m].id != id
    {
      assert s.Log(ch)[m] in s.Log(ch);
    }
  }

  /**
   * Order: a send that ends before another begins is received before it, by every channel that
   * receives both. A queue is sent event by event, so each channel receives it in its order.
   */
  lemma QueueOrderIsKept(trace: Trace, ch: Channel, i: nat, j: nat, a: Delivery, k: nat, l: nat)
    requires IsRun(trace) && i < j < |trace| && trace[i] == End(a.id) && trace[j].Begin?
    requires var log := Execute(trace).value.Log(ch);
             k < |log| && l < |log| && log[k] == a && log[l].id == trace[j].id
    ensures k < l
  {
    hide Execute;
    PrefixIsRun(trace, j);
    var s, before := Execute(trace).value, Execute(trace[..j]).value;
    BeganWith(trace, j);
    RunExtends(trace, j);
    assert trace[..j][..i + 1] == trace[..i + 1];
    EndedBy(trace, i);
    RunExtends(trace[..j], i + 1);
    RunIsConsistent(trace);
    RunIsConsistent(trace[..j]);
    assert LogFits(s, ch) && LogFits(before, ch);
    assert Delivered(before, ch, a.id);
    assert a in before.Log(ch);
    var k' :| 0 <= k' < |before.Log(ch)| && before.Log(ch)[k'] == a;
    assert s.Log(ch)[k'] == a && k' == k;
    NotYetReceived(before, ch, trace[j].id);
    assert forall m :: 0 <= m < |before.Log(ch)| ==> s.Log(ch)[m] == before.Log(ch)[m];
  }

  // ---------- The listeners ----------

  method MatchKind(kinds: seq<Kind>, kind: Kind) returns (r: bool)
    ensures r <==> kinds == [] || kind in kinds
  {
    if |kinds| == 0 {
      return true;
    }
    for i := 0 to |kinds|
      invariant kind !in kinds[..i]
    {
      if kinds[i] == kind {
        return true;
      }
    }
    assert kinds == kinds[..|kinds|];
    return false;
  }

  /** The events of a queue that a watch asks for: of its project and its kinds, if it names or lists any. */
  function Asked(w: Option<Watch>, queue: seq<Event>): seq<Event> {
    if queue == [] then [] else
      var last := |queue| - 1;
      var e := queue[last];
      Asked(w, queue[..last]) +
      if w.Some? && (w.value.project == "" || w.value.project == e.project) &&
         (w.value.kinds == [] || e.kind in w.value.kinds)
      then [e] else []
  }

  function LogIn(delivered: map<Channel, seq<Event>>, ch: Channel): seq<Event> {
    if ch in delivered then delivered[ch] else []
  }

  /** Every channel has received what the state says. */
  ghost predicate Shows(s: State, delivered: map<Channel, seq<Event>>) {
    forall ch :: LogIn(delivered, ch) == Received(s, ch)
  }

  lemma OtherStepsDeliverNothing(s: State, step: Step, delivered: map<Channel, seq<Event>>)
    requires Shows(s, delivered) && Enabled(s, step) && !step.Visit?
    ensures Shows(Next(s, step), delivered)
  {
    var s' := Next(s, step);
    forall ch
      ensures LogIn(delivered, ch) == Received(s', ch)
    {
      assert s'.Log(ch) == s.Log(ch);
    }
  }

  lemma VisitDelivers(s: State, id: SendId, ch: Channel, delivered: map<Channel, seq<Event>>)
    requires Shows(s, delivered) && Enabled(s, Visit(id, ch)) && ch in s.listeners
    ensures var e := s.active[id].event;
            Shows(Next(s, Visit(id, ch)),
                  if Matches(s.listeners[ch], e) then delivered[ch := LogIn(delivered, ch) + [e]] else delivered)
  {
    var s', e := Next(s, Visit(id, ch)), s.active[id].event;
    var delivered' := if Matches(s.listeners[ch], e) then delivered[ch := LogIn(delivered, ch) + [e]] else delivered;
    forall c
      ensures LogIn(delivered', c) == Received(s', c)
    {
      assert LogIn(delivered, c) == Received(s, c);
      if c != ch || !Matches(s.listeners[ch], e) {
        assert s'.Log(c) == s.Log(c);
      } else {
        assert s'.Log(c) == s.Log(c) + [Delivery(id, e)];
        assert Received(s', c) == Received(s, c) + [e];
      }
    }
  }

  /** One sender's view: its methods record the steps that they take. */
  class EventListeners {
    var listeners: map<Channel, Watch>
    var delivered: map<Channel, seq<Event>>
    ghost var trace: Trace
    ghost var state: State
    ghost var sends: nat  // sends so far

    function Log(ch: Channel): seq<Event>
      reads this
    {
      LogIn(delivered, ch)
    }

    function Listener(ch: Channel): Option<Watch>
      reads this
    {
      if ch in listeners then Some(listeners[ch]) else None
    }

    /** The recorded steps are a run that the lock admits, and lead to these listeners and logs. */
    ghost predicate Tracked()
      reads this
    {
      && Execute(trace) == Some(state) && state.listeners == listeners
      && (forall id :: id in state.started ==> id < sends)
      && Shows(state, delivered)
    }

    ghost predicate Valid()
      reads this
    {
      Tracked() && state.active == map[]
    }

    constructor ()
      ensures Valid() && trace == []
    {
      listeners, delivered, trace, state, sends := map[], map[], [], INITIAL, 0;
    }

    /** Records a step and what it does to listeners and logs. */
    ghost method Record(step: Step)
      requires Execute(trace) == Some(state) && Enabled(state, step)
      modifies this`trace, this`state
      ensures trace == old(trace) + [step] && state == Next(old(state), step) && Execute(trace) == Some(state)
    {
      var more := trace + [step];
      assert more[..|more| - 1] == trace;
      trace, state := more, Next(state, step);
    }

    method AddListener(ch: Channel, w: Watch)
      requires Valid()
      modifies this
      ensures Valid() && trace == old(trace) + [Add(ch, w)]
      ensures listeners == old(listeners)[ch := w] && delivered == old(delivered)
    {
      hide Execute, Shows;
      OtherStepsDeliverNothing(state, Add(ch, w), delivered);
      Record(Add(ch, w));
      listeners := listeners[ch := w];
    }

    method DeleteListener(ch: Channel)
      requires Valid()
      modifies this
      ensures Valid() && trace == old(trace) + [Remove(ch)]
      ensures listeners == old(listeners) - {ch} && delivered == old(delivered)
    {
      hide Execute, Shows;
      OtherStepsDeliverNothing(state, Remove(ch), delivered);
      Record(Remove(ch));
      listeners := listeners - {ch};
    }

    /** Visits one listener: sends it the event if it asks for it. */
    method Offer(ghost id: SendId, ch: Channel, event: Event)
      requires Tracked() && Enabled(state, Visit(id, ch)) && state.active[id].event == event && ch in listeners
      modifies this`delivered, this`trace, this`state
      ensures Tracked() && state == Next(old(state), Visit(id, ch)) && trace == old(trace) + [Visit(id, ch)]
      ensures Log(ch) == old(Log(ch)) + if Matches(listeners[ch], event) then [event] else []
      ensures forall c :: c != ch ==> Log(c) == old(Log(c))
    {
      hide Execute, Shows;
      VisitDelivers(state, id, ch, delivered);
      Record(Visit(id, ch));
      var w := listeners[ch];
      if w.project == "" || w.project == event.project {
        var matches := MatchKind(w.kinds, event.kind);
        if matches {
          delivered := delivered[ch := Log(ch) + [event]];
        }
      }
    }

    /** Visits every listener, in no particular order. */
    method VisitAll(ghost id: SendId, event: Event)
      requires Tracked() && state.active == map[id := Sending(event, listeners.Keys)]
      modifies this`delivered, this`trace, this`state
      ensures Tracked() && state.active == map[id := Sending(event, {})] && state.started == old(state).started
      ensures forall c :: Log(c) == old(Log(c)) +
                if c in listeners && Matches(listeners[c], event) then [event] else []
    {
      hide EventListeners.Tracked, EventListeners.Log, Matches, State.Log;
      var todo := listeners.Keys;
      while todo != {}
        invariant Tracked() && todo <= listeners.Keys && state.started == old(state).started
        invariant state.active == map[id := Sending(event, todo)]
        invariant forall c :: Log(c) == old(Log(c)) +
                    if c in listeners && c !in todo && Matches(listeners[c], event) then [event] else []
      {
        var ch :| ch in todo;
        Offer(id, ch, event);
        todo := todo - {ch};
      }
    }

    /** Sends to the listeners that ask for the event. */
    method SendEvent(event: Event)
      requires Valid()
      modifies this
      ensures Valid() && listeners == old(listeners)
      ensures forall c :: Log(c) == old(Log(c)) +
                if c in listeners && (listeners[c].project == "" || listeners[c].project == event.project) &&
                   (listeners[c].kinds == [] || event.kind in listeners[c].kinds)
                then [event] else []
    {
      hide Execute, Shows;
      ghost var id := sends;
      OtherStepsDeliverNothing(state, Begin(id, event), delivered);
      Record(Begin(id, event));
      sends := sends + 1;
      VisitAll(id, event);
      OtherStepsDeliverNothing(state, End(id), delivered);
      Record(End(id));
    }
  }

  lemma AskedOne(event: Event)
    ensures forall w :: Asked(w, [event]) == if w.Some? && Matches(w.value, event) then [event] else []
  {
    forall w
      ensures Asked(w, [event]) == if w.Some? && Matches(w.value, event) then [event] else []
    {
      assert [event][..0] == [];
      assert Asked(w, []) == [];
    }
  }

  lemma AskedStep(w: Option<Watch>, queue: seq<Event>, i: nat)
    requires i < |queue|
    ensures Asked(w, queue[..i + 1]) == Asked(w, queue[..i]) + Asked(w, [queue[i]])
  {
    assert queue[..i + 1][..i] == queue[..i];
    AskedOne(queue[i]);
  }

  /** The events of one operation, sent after its commit. */
  class EventQueue {
    var queue: seq<Event>

    constructor ()
      ensures queue == []
    {
      queue := [];
    }

    method Append(eventType: string, project: string, kind: Kind, item: string)
      modifies this
      ensures queue == old(queue) + [Event(eventType, project, kind, item)]
    {
      queue := queue + [Event(eventType, project, kind, item)];
    }

    /** One send after the other: each listener receives what it asks for, in the queue's order. */
    method SendToAll(listeners: EventListeners)
      requires listeners.Valid()
      modifies listeners
      ensures listeners.Valid() && listeners.listeners == old(listeners.listeners)
      ensures forall c :: listeners.Log(c) == old(listeners.Log(c)) + Asked(listeners.Listener(c), queue)
    {
      hide EventListeners.Valid, Asked;
      NothingAsked();
      for i := 0 to |queue|
        invariant listeners.Valid() && listeners.listeners == old(listeners.listeners)
        invariant forall c :: listeners.Log(c) == old(listeners.Log(c)) + Asked(listeners.Listener(c), queue[..i])
      {
        forall w {
          AskedStep(w, queue, i);
        }
        AskedOne(queue[i]);
        listeners.SendEvent(queue[i]);
      }
      assert queue[..|queue|] == queue;
    }
  }

  lemma NothingAsked()
    ensures forall w :: Asked(w, []) == []
  {
  }
}
