/** The OpenCode plugin's publish stream (`AgentPublisher` and `agentStateHooks` in
    plugins/opencode/rozi-agent-state.js) as a state machine over event-loop steps.

    A call of `publish` runs synchronously to its `await`; what follows the `await` in the publisher,
    and then in its caller, are microtasks. Microtasks run in any order, and events may arrive
    between them, but a socket or timer callback runs only when no microtask is left. */
module AgentPublishers {
  import opened Wrappers
  import opened AgentStates

  /** One connection: the variables of the closure that owns it, whether `close` ended it, the rows
      it carried, and how often its promise was resolved and `onLost` was called for it. */
  datatype Connection = Connection(
    acknowledged: bool,
    isOpen: bool,
    ended: bool,
    result: Option<bool>,
    rows: seq<Row>,
    settles: nat,
    losses: nat)

  const Fresh := Connection(false, false, false, None, [], 0, 0)

  /** What `#ready` holds: the promise of one connection, or one already resolved to false because
      the plugin runs outside a pane. */
  datatype Ready = NoStream | Stream(id: nat)

  datatype Publisher = Publisher(
    hasSocket: bool,
    latest: Option<Row>,
    closed: bool,
    current: Option<nat>,
    ready: Option<Ready>,
    connections: seq<Connection>)

  /** How far the synchronous part of `publish` got: closed, or waiting on a promise. */
  datatype Ticket = Refused | On(ready: Ready)

  // ---------------------------------------------------------------- publisher transitions

  /** `publish` up to its `await`. */
  function Begin(p: Publisher, row: Row): (Publisher, Ticket) {
    var p1 := p.(latest := Some(row));
    if p.closed then (p1, Refused)
    else if p.ready.Some? then (p1, On(p.ready.value))
    else if !p.hasSocket then (p1.(ready := Some(NoStream)), On(NoStream))
    else
      var id := |p.connections|;
      (p1.(connections := p.connections + [Fresh], current := Some(id), ready := Some(Stream(id))), On(Stream(id)))
  }

  /** The value a promise has been resolved to, if it has. */
  function Value(p: Publisher, ready: Ready): Option<bool> {
    match ready
    case NoStream => Some(false)
    case Stream(id) => if id < |p.connections| then p.connections[id].result else None
  }

  function Write(p: Publisher): Publisher {
    if p.latest.None? || p.current.None? || p.current.value >= |p.connections| then p
    else
      var c := p.connections[p.current.value];
      p.(connections := p.connections[p.current.value := c.(rows := c.rows + [p.latest.value])])
  }

  function Close(p: Publisher): Publisher {
    var left :=
      if p.current.Some? && p.current.value < |p.connections|
      then p.connections[p.current.value := p.connections[p.current.value].(ended := true)] else p.connections;
    p.(connections := left, closed := true, current := None, ready := None)
  }

  /** Resolving a promise twice has no effect, but counts. */
  function SettleWith(c: Connection, open: bool): Connection {
    c.(settles := c.settles + 1, result := if c.result.None? then Some(open) else c.result)
  }

  function Disconnect(p: Publisher, id: nat): Publisher {
    if p.current == Some(id) then p.(current := None, ready := None) else p
  }

  /** The `drop` callback, and whether it calls `onLost`. */
  function Drop(p: Publisher, id: nat): (Publisher, bool)
    requires id < |p.connections|
  {
    var c := p.connections[id];
    var c1 := if c.acknowledged then c else SettleWith(c, false).(acknowledged := true);
    var lost := c1.isOpen && !p.closed;
    var c2 := if lost then c1.(isOpen := false, losses := c1.losses + 1) else c1;
    (Disconnect(p, id).(connections := p.connections[id := c2]), lost)
  }

  /** The `data` callback; `line` is whether the reply says `ok`, once a whole line has arrived. */
  function Data(p: Publisher, id: nat, line: Option<bool>): Publisher
    requires id < |p.connections|
  {
    var c := p.connections[id];
    if c.acknowledged || line.None? then p
    else
      var p1 := if line.value then p else Disconnect(p, id);
      p1.(connections := p.connections[id := SettleWith(c.(acknowledged := true, isOpen := line.value), line.value)])
  }

  // ---------------------------------------------------------------- the plugin

  datatype Stage = Awaiting(ready: Ready) | Returned(open: bool)

  /** One unfinished `publish` call. The first one is made while the hooks are being created. */
  datatype Waiter = Waiter(stage: Stage, initial: bool)

  datatype Plugin = Plugin(
    publisher: Publisher,
    state: State,
    waiters: map<nat, Waiter>,
    calls: nat,
    hooked: bool)

  function TicketStage(ticket: Ticket): Stage {
    match ticket
    case Refused => Returned(false)
    case On(ready) => Awaiting(ready)
  }

  function Publish(g: Plugin, row: Row, initial: bool): Plugin {
    var (p, ticket) := Begin(g.publisher, row);
    g.(publisher := p, waiters := g.waiters[g.calls := Waiter(TicketStage(ticket), initial)], calls := g.calls + 1)
  }

  /** `agentStateHooks` up to its first `await`. */
  function Start(hasSocket: bool): Plugin {
    Publish(Plugin(Publisher(hasSocket, None, false, None, None, []), Initial, map[], 0, false),
            Row(Idle, None), true)
  }

  datatype Step =
    | Notify(event: Event)
    | Resume(w: nat)                      // the microtask after `await this.#ready`
    | Finish(w: nat)                      // the microtask after `await publisher.publish(...)`
    | Reply(id: nat, line: Option<bool>)  // a data callback
    | TimedOut(id: nat)                   // the acknowledgement timer
    | Lose(id: nat)                       // an error or close callback, possibly repeated
    | Dispose

  predicate Runnable(g: Plugin, w: nat) {
    w in g.waiters && (g.waiters[w].stage.Returned? || Value(g.publisher, g.waiters[w].stage.ready).Some?)
  }

  predicate MicrotasksDone(g: Plugin) {
    forall w | w in g.waiters :: !Runnable(g, w)
  }

  predicate Enabled(g: Plugin, step: Step) {
    match step
    case Notify(_) => g.hooked
    case Dispose => g.hooked
    case Resume(w) => Runnable(g, w) && g.waiters[w].stage.Awaiting?
    case Finish(w) => w in g.waiters && g.waiters[w].stage.Returned?
    case Reply(id, _) => id < |g.publisher.connections| && MicrotasksDone(g)
    case TimedOut(id) =>
      // `settle` clears the timer
      id < |g.publisher.connections| && MicrotasksDone(g) && !g.publisher.connections[id].acknowledged
    case Lose(id) => id < |g.publisher.connections| && MicrotasksDone(g)
  }

  function LoseStream(g: Plugin, id: nat): Plugin
    requires id < |g.publisher.connections|
  {
    var (p, lost) := Drop(g.publisher, id);
    g.(publisher := p, state := if lost then Forget(g.state) else g.state)
  }

  function Next(g: Plugin, step: Step): Plugin
    requires Enabled(g, step)
  {
    match step
    case Notify(event) =>
      var (state, update) := Reduce(g.state, event);
      var g1 := g.(state := state);
      if update.Some? then Publish(g1, update.value, false) else g1
    case Resume(w) =>
      var open := Value(g.publisher, g.waiters[w].stage.ready).value;
      g.(publisher := if open then Write(g.publisher) else g.publisher,
         waiters := g.waiters[w := g.waiters[w].(stage := Returned(open))])
    case Finish(w) =>
      var Waiter(stage, initial) := g.waiters[w];
      var g1 := g.(waiters := g.waiters - {w});
      if initial then g1.(hooked := true, state := if stage.open then Settle(g.state).0 else g.state)
      else if stage.open then g1
      else g1.(state := Forget(g.state))
    case Reply(id, line) => g.(publisher := Data(g.publisher, id, line))
    case TimedOut(id) => LoseStream(g, id)
    case Lose(id) => LoseStream(g, id)
    case Dispose => g.(state := Initial, publisher := Close(g.publisher))
  }

  /** The plugin after a schedule of steps; a step that is not enabled does not happen. */
  ghost function Run(hasSocket: bool, steps: seq<Step>): Plugin {
    if steps == [] then Start(hasSocket)
    else
      var before := Run(hasSocket, steps[..|steps| - 1]);
      var step := steps[|steps| - 1];
      if Enabled(before, step) then Next(before, step) else before
  }

  // ---------------------------------------------------------------- invariant

  /** A connection's promise is resolved once, by the acknowledgement or by the drop before it;
      rows are only ever written to, and lost by, a connection that was acknowledged. */
  predicate Sound(c: Connection) {
    && c.settles == (if c.acknowledged then 1 else 0)
    && (c.result.Some? <==> c.acknowledged)
    && (c.isOpen ==> c.result == Some(true))
    && c.losses <= 1
    && (c.losses == 1 ==> c.result == Some(true) && !c.isOpen)
    && (c.rows != [] ==> c.result == Some(true))
  }

  /** A connection that was refused, or is gone: it carries no row. */
  predicate Withdrawn(c: Connection) {
    c.acknowledged && !c.isOpen
  }

  ghost predicate Connected(p: Publisher) {
    && (forall i | 0 <= i < |p.connections| :: Sound(p.connections[i]))
    && (p.closed ==> p.current.None? && p.ready.None?)
    && (!p.hasSocket ==> p.connections == [] && p.current.None? && (p.ready.Some? ==> p.ready.value == NoStream))
    && (p.hasSocket && p.current.Some? ==> p.ready == Some(Stream(p.current.value)))
    && (p.hasSocket && p.current.None? ==> p.ready.None?)
    && (p.current.Some? ==>
          && p.current.value < |p.connections|
          && (p.connections[p.current.value].isOpen || !p.connections[p.current.value].acknowledged))
    && (!p.closed ==> forall i | 0 <= i < |p.connections| && p.current != Some(i) ::
          Withdrawn(p.connections[i]))
    && (p.closed ==> forall i | 0 <= i < |p.connections| :: p.connections[i].ended || Withdrawn(p.connections[i]))
  }

  /** A publish call that will find its stream failed and make the plugin forget. */
  predicate Doomed(g: Plugin, w: nat) {
    && w in g.waiters
    && (g.waiters[w].stage == Returned(false)
        || (g.waiters[w].stage.Awaiting? && Value(g.publisher, g.waiters[w].stage.ready) == Some(false)))
  }

  predicate WaitsOn(g: Plugin, w: nat, id: nat) {
    w in g.waiters && g.waiters[w].stage == Awaiting(Stream(id))
  }

  predicate Waiting(g: Plugin) {
    && (forall w | w in g.waiters :: w < g.calls)
    && (forall w | w in g.waiters && g.waiters[w].stage.Awaiting? && g.waiters[w].stage.ready.NoStream? ::
          !g.publisher.hasSocket)
    && (forall w | w in g.waiters && g.waiters[w].stage.Awaiting? && g.waiters[w].stage.ready.Stream? ::
          var id := g.waiters[w].stage.ready.id;
          && id < |g.publisher.connections|
          && (g.publisher.connections[id].result == Some(true) && !g.publisher.closed ==>
                g.publisher.current == Some(id)))
    && (forall w | w in g.waiters && g.waiters[w].stage == Returned(true) && !g.publisher.closed ::
          g.publisher.current.Some?)
    && (forall w | w in g.waiters :: g.waiters[w].initial <==> !g.hooked)
    && (!g.hooked ==> g.calls == 1)
  }

  predicate Shows(c: Connection, row: Option<Row>) {
    c.rows != [] && row == Some(c.rows[|c.rows| - 1])
  }

  /** The stream the plugin holds shows the latest row, or some call is about to write it. */
  ghost predicate Carried(g: Plugin) {
    g.publisher.current.Some? ==>
      var id := g.publisher.current.value;
      || (id < |g.publisher.connections| && g.publisher.connections[id].isOpen
          && Shows(g.publisher.connections[id], g.publisher.latest))
      || exists w :: WaitsOn(g, w, id)
  }

  /** What is remembered as published is current, and on the stream or about to be forgotten. */
  ghost predicate Remembered(g: Plugin) {
    && (g.state.published.Some? ==> g.state.published == g.publisher.latest == Some(Aggregate(g.state)))
    && (g.state.published.Some? ==> g.publisher.current.Some? || exists w :: Doomed(g, w))
    && (!g.publisher.closed ==> g.publisher.latest == Some(Aggregate(g.state)))
    && (!g.hooked ==> g.state == Initial && !g.publisher.closed)
  }

  ghost predicate Coherent(g: Plugin) {
    Connected(g.publisher) && Waiting(g) && Carried(g) && Remembered(g)
  }

  lemma StartHolds(hasSocket: bool)
    ensures Coherent(Start(hasSocket))
  {
    var g := Start(hasSocket);
    assert hasSocket ==> WaitsOn(g, 0, 0);
    assert Aggregate(Initial) == Row(Idle, None);
  }

  lemma PublishKeeps(g: Plugin, row: Row)
    requires Connected(g.publisher) && Waiting(g) && Carried(g) && g.hooked
    requires g.state.published == Some(row) && row == Aggregate(g.state)
    ensures Coherent(Publish(g, row, false))
  {
    var after := Publish(g, row, false);
    var w := g.calls;
    if g.publisher.closed || !g.publisher.hasSocket {
      assert Doomed(after, w);
    } else {
      assert WaitsOn(after, w, after.publisher.current.value);
    }
  }

  /** Steps that leave the waiters alone leave a waiting call waiting. */
  lemma KeepsWaiter(g: Plugin, after: Plugin)
    requires Carried(g) && g.waiters == after.waiters && g.publisher == after.publisher
    ensures Carried(after)
  {
    if g.publisher.current.Some? && exists w :: WaitsOn(g, w, g.publisher.current.value) {
      var w :| WaitsOn(g, w, g.publisher.current.value);
      assert WaitsOn(after, w, g.publisher.current.value);
    }
  }

  lemma NotifyKeeps(g: Plugin, event: Event)
    requires Coherent(g) && g.hooked
    ensures Coherent(Next(g, Notify(event)))
  {
    if Recognized(event) {
      ReduceRemembers(g.state, event);
      var (state, update) := Reduce(g.state, event);
      var g1 := g.(state := state);
      if g.publisher.current.Some? {
        KeepsWaiter(g, g1);
      }
      if update.Some? {
        PublishKeeps(g1, update.value);
      } else if exists w :: Doomed(g, w) {
        var w :| Doomed(g, w);
        assert Doomed(g1, w);
      }
    }
  }

  /** Writing changes nothing but the rows of the open stream, which then shows the latest row. */
  lemma WriteKeeps(p: Publisher)
    requires Connected(p)
    requires p.current.Some? ==> p.connections[p.current.value].isOpen
    ensures Connected(Write(p))
    ensures Write(p) == p.(connections := Write(p).connections)
    ensures |Write(p).connections| == |p.connections|
    ensures forall i | 0 <= i < |p.connections| ::
              Write(p).connections[i] == p.connections[i].(rows := Write(p).connections[i].rows)
    ensures p.current.Some? && p.latest.Some? ==> Shows(Write(p).connections[p.current.value], p.latest)
  {
  }

  lemma WaitsOnAfterWrite(g: Plugin, w: nat)
    requires Coherent(g) && Enabled(g, Resume(w)) && Value(g.publisher, g.waiters[w].stage.ready) == Some(true)
    ensures Waiting(Next(g, Resume(w)))
  {
    WriteKeeps(g.publisher);
  }

  lemma ResumeOpenKeeps(g: Plugin, w: nat)
    requires Coherent(g) && Enabled(g, Resume(w)) && Value(g.publisher, g.waiters[w].stage.ready) == Some(true)
    ensures Coherent(Next(g, Resume(w)))
  {
    var after := Next(g, Resume(w));
    WriteKeeps(g.publisher);
    WaitsOnAfterWrite(g, w);
    if d :| Doomed(g, d) {
      assert Doomed(after, d);
    }
    if after.publisher.current.Some? {
      assert Shows(after.publisher.connections[after.publisher.current.value], after.publisher.latest);
    }
  }

  lemma ResumeFailedKeeps(g: Plugin, w: nat)
    requires Coherent(g) && Enabled(g, Resume(w)) && Value(g.publisher, g.waiters[w].stage.ready) == Some(false)
    ensures Coherent(Next(g, Resume(w)))
  {
    var after := Next(g, Resume(w));
    assert Doomed(after, w);
    if g.publisher.current.Some? {
      var id := g.publisher.current.value;
      if x :| WaitsOn(g, x, id) {
        assert x != w;
        assert WaitsOn(after, x, id);
      }
    }
  }

  lemma FinishKeeps(g: Plugin, w: nat)
    requires Coherent(g) && Enabled(g, Finish(w))
    ensures Coherent(Next(g, Finish(w)))
  {
    var after := Next(g, Finish(w));
    AggregateIgnoresPublished(g.state, None);
    AggregateIgnoresPublished(g.state, Some(Aggregate(g.state)));
    if g.publisher.current.Some? {
      var id := g.publisher.current.value;
      if x :| WaitsOn(g, x, id) {
        assert WaitsOn(after, x, id);
      }
    }
    if g.waiters[w].stage.open && !g.waiters[w].initial {
      if d :| Doomed(g, d) {
        assert Doomed(after, d);
      }
    }
  }

  /** A callback runs with no microtask left: every waiting call waits on a pending connection. */
  lemma PendingWaiters(g: Plugin)
    requires Coherent(g) && MicrotasksDone(g)
    ensures forall w :: !Doomed(g, w)
    ensures forall w | w in g.waiters ::
              && g.waiters[w].stage.Awaiting? && g.waiters[w].stage.ready.Stream?
              && g.waiters[w].stage.ready.id < |g.publisher.connections|
              && !g.publisher.connections[g.waiters[w].stage.ready.id].acknowledged
  {
    forall w | w in g.waiters
      ensures g.waiters[w].stage.Awaiting? && Value(g.publisher, g.waiters[w].stage.ready).None?
    {
      assert !Runnable(g, w);
    }
  }

  lemma DropKeeps(p: Publisher, id: nat)
    requires Connected(p) && id < |p.connections|
    ensures Connected(Drop(p, id).0)
    ensures Drop(p, id).1 <==> p.current == Some(id) && p.connections[id].isOpen
    ensures !p.connections[id].acknowledged ==> Drop(p, id).0.connections[id].result == Some(false)
    ensures p.connections[id].acknowledged ==> Drop(p, id).0.connections[id].result == p.connections[id].result
  {
  }

  lemma LoseKeeps(g: Plugin, id: nat)
    requires Coherent(g) && MicrotasksDone(g) && id < |g.publisher.connections|
    ensures Coherent(LoseStream(g, id))
  {
    var after := LoseStream(g, id);
    PendingWaiters(g);
    DropKeeps(g.publisher, id);
    AggregateIgnoresPublished(g.state, None);
    if g.publisher.current == Some(id) {
      if !g.publisher.connections[id].isOpen {
        var w :| WaitsOn(g, w, id);
        assert Doomed(after, w);
      }
    } else if g.publisher.current.Some? {
      if x :| WaitsOn(g, x, g.publisher.current.value) {
        assert WaitsOn(after, x, g.publisher.current.value);
      }
    }
  }

  lemma DataKeeps(p: Publisher, id: nat, line: Option<bool>)
    requires Connected(p) && id < |p.connections|
    ensures Connected(Data(p, id, line))
  {
  }

  lemma ReplyKeeps(g: Plugin, id: nat, line: Option<bool>)
    requires Coherent(g) && Enabled(g, Reply(id, line))
    ensures Coherent(Next(g, Reply(id, line)))
  {
    var after := Next(g, Reply(id, line));
    PendingWaiters(g);
    DataKeeps(g.publisher, id, line);
    if after != g {
      if g.publisher.current.Some? {
        if x :| WaitsOn(g, x, g.publisher.current.value) {
          assert WaitsOn(after, x, g.publisher.current.value);
          assert g.publisher.current == Some(id) && !line.value ==> Doomed(after, x);
        }
      }
    }
  }

  lemma DisposeKeeps(g: Plugin)
    requires Coherent(g) && g.hooked
    ensures Coherent(Next(g, Dispose))
  {
  }

  lemma StepKeeps(g: Plugin, step: Step)
    requires Coherent(g) && Enabled(g, step)
    ensures Coherent(Next(g, step))
  {
    match step
    case Notify(event) => NotifyKeeps(g, event);
    case Resume(w) =>
      if Value(g.publisher, g.waiters[w].stage.ready).value {
        ResumeOpenKeeps(g, w);
      } else {
        ResumeFailedKeeps(g, w);
      }
    case Finish(w) => FinishKeeps(g, w);
    case Reply(id, line) => ReplyKeeps(g, id, line);
    case TimedOut(id) => LoseKeeps(g, id);
    case Lose(id) => LoseKeeps(g, id);
    case Dispose => DisposeKeeps(g);
  }

  lemma {:induction false} RunKeeps(hasSocket: bool, steps: seq<Step>)
    ensures Coherent(Run(hasSocket, steps))
  {
    if steps == [] {
      StartHolds(hasSocket);
    } else {
      RunKeeps(hasSocket, steps[..|steps| - 1]);
      var before := Run(hasSocket, steps[..|steps| - 1]);
      if Enabled(before, steps[|steps| - 1]) {
        StepKeeps(before, steps[|steps| - 1]);
      }
    }
  }

  // ---------------------------------------------------------------- what every run guarantees

  /** Whenever no publish call is left unfinished, the pane is right or will be: an open stream
      shows exactly the aggregate over all sessions, and without one nothing is remembered as
      published. */
  lemma QuiescentPaneIsRight(hasSocket: bool, steps: seq<Step>)
    requires Run(hasSocket, steps).waiters == map[]
    ensures var g := Run(hasSocket, steps);
            match g.publisher.current
            case None => g.state.published == None
            case Some(id) =>
              && id < |g.publisher.connections|
              && g.publisher.connections[id].isOpen
              && Shows(g.publisher.connections[id], Some(Aggregate(g.state)))
  {
    RunKeeps(hasSocket, steps);
    var g := Run(hasSocket, steps);
    assert forall w, id :: !WaitsOn(g, w, id);
    assert forall w :: !Doomed(g, w);
  }

  /** Nothing remembered means the next lifecycle event publishes, changed or not. */
  lemma NothingRememberedRepublishes(hasSocket: bool, steps: seq<Step>, event: Event)
    requires Enabled(Run(hasSocket, steps), Notify(event)) && Recognized(event)
    requires Run(hasSocket, steps).state.published == None
    ensures var g := Run(hasSocket, steps);
            var after := Next(g, Notify(event));
            && after.calls == g.calls + 1 && g.calls in after.waiters
            && after.publisher.latest == Some(Aggregate(after.state))
  {
    ReduceRemembers(Run(hasSocket, steps).state, event);
  }

  /** A row is written only after its connection was acknowledged, and it is always the aggregate
      at that moment, never the state some earlier call set out to publish. */
  lemma EveryRowIsCurrent(hasSocket: bool, steps: seq<Step>, step: Step, id: nat)
    requires Enabled(Run(hasSocket, steps), step) && id < |Run(hasSocket, steps).publisher.connections|
    ensures var g := Run(hasSocket, steps);
            var after := Next(g, step);
            && id < |after.publisher.connections|
            && var was := g.publisher.connections[id].rows;
               var now := after.publisher.connections[id].rows;
               || now == was
               || (step.Resume? && g.publisher.connections[id].result == Some(true)
                   && g.publisher.current == Some(id) && now == was + [Aggregate(g.state)])
  {
    RunKeeps(hasSocket, steps);
  }

  /** Each connection's promise settles at most once, and while it has not, its timer can still
      settle it; `onLost` is called at most once for it, and only after a successful reply. */
  lemma PromisesSettleOnce(hasSocket: bool, steps: seq<Step>, id: nat)
    requires id < |Run(hasSocket, steps).publisher.connections|
    ensures var g := Run(hasSocket, steps);
            var c := g.publisher.connections[id];
            && c.settles <= 1
            && (c.settles == 1 <==> c.result.Some?)
            && c.losses <= 1
            && (c.losses == 1 ==> c.result == Some(true))
            && (c.settles == 0 && MicrotasksDone(g) ==>
                  && Enabled(g, TimedOut(id))
                  && Next(g, TimedOut(id)).publisher.connections[id].result == Some(false))
  {
    RunKeeps(hasSocket, steps);
    DropKeeps(Run(hasSocket, steps).publisher, id);
  }

  /** After a lost stream, one lifecycle event and one good reply put the aggregate back on screen. */
  lemma OneEventRecovers(hasSocket: bool, steps: seq<Step>, event: Event)
    requires var g := Run(hasSocket, steps);
             && g.waiters == map[] && g.hooked && g.publisher.hasSocket && !g.publisher.closed
             && g.publisher.current.None?
    requires Recognized(event)
    ensures var g := Run(hasSocket, steps);
            var (w, id) := (g.calls, |g.publisher.connections|);
            var g1 := Next(g, Notify(event));
            && Enabled(g1, Reply(id, Some(true)))
            && var g2 := Next(g1, Reply(id, Some(true)));
            && Enabled(g2, Resume(w))
            && var g3 := Next(g2, Resume(w));
            && Enabled(g3, Finish(w))
            && var g4 := Next(g3, Finish(w));
            && g4.waiters == map[]
            && g4.publisher.current == Some(id)
            && Shows(g4.publisher.connections[id], Some(Aggregate(g4.state)))
            && g4.state.published == Some(Aggregate(g4.state))
  {
    RunKeeps(hasSocket, steps);
    QuiescentPaneIsRight(hasSocket, steps);
    var g := Run(hasSocket, steps);
    ReduceRemembers(g.state, event);
    var g1 := Next(g, Notify(event));
    assert g1.waiters == map[g.calls := Waiter(Awaiting(Stream(|g.publisher.connections|)), false)];
  }

  /** An event publishes exactly when the aggregate is not the one remembered. */
  lemma EventPublishesChange(hasSocket: bool, steps: seq<Step>, event: Event)
    requires Enabled(Run(hasSocket, steps), Notify(event)) && Recognized(event)
    ensures var g := Run(hasSocket, steps);
            var after := Next(g, Notify(event));
            if g.state.published == Some(Aggregate(after.state))
            then (after.publisher, after.waiters, after.calls) == (g.publisher, g.waiters, g.calls)
            else after.calls == g.calls + 1 && after.publisher.latest == Some(Aggregate(after.state))
  {
    ReduceRemembers(Run(hasSocket, steps).state, event);
  }

  /** The first publish is answered, resumed and finished before the hooks exist: answered well it
      leaves the idle row on the pane and remembered, answered badly nothing. */
  lemma StartShowsIdle(ok: bool)
    ensures var start := Start(true);
            && Enabled(start, Reply(0, Some(ok)))
            && var replied := Next(start, Reply(0, Some(ok)));
            && Enabled(replied, Resume(0))
            && var resumed := Next(replied, Resume(0));
            && Enabled(resumed, Finish(0))
            && var ready := Next(resumed, Finish(0));
            && ready.hooked && ready.waiters == map[]
            && ready.publisher.connections[0].rows == (if ok then [Row(Idle, None)] else [])
            && ready.publisher.current == (if ok then Some(0) else None)
            && ready.state == Initial.(published := if ok then Some(Row(Idle, None)) else None)
  {
    var start := Start(true);
    assert Aggregate(Initial) == Row(Idle, None);
    assert start.waiters == map[0 := Waiter(Awaiting(Stream(0)), true)];
    var replied := Next(start, Reply(0, Some(ok)));
    assert replied.publisher.connections[0].result == Some(ok);
  }

  lemma RunStep(hasSocket: bool, steps: seq<Step>, step: Step)
    ensures Run(hasSocket, steps + [step]) ==
            if Enabled(Run(hasSocket, steps), step) then Next(Run(hasSocket, steps), step) else Run(hasSocket, steps)
  {
    assert (steps + [step])[..|steps|] == steps;
  }

  /** Disposing closes the publisher and ends its stream, if it has one: every connection is then
      ended or withdrawn already. No session is held any more and nothing is remembered. */
  lemma DisposalCloses(hasSocket: bool, steps: seq<Step>)
    requires Enabled(Run(hasSocket, steps), Dispose)
    ensures var after := Run(hasSocket, steps + [Dispose]);
            && after.publisher.closed && after.publisher.current.None? && after.publisher.ready.None?
            && after.state.requests == map[] && after.state.requestOrder == []
            && after.state.busy == [] && after.state.errored == [] && after.state.published.None?
            && forall id | 0 <= id < |after.publisher.connections| ::
                 var c := after.publisher.connections[id];
                 && (c.ended || (c.acknowledged && !c.isOpen))
                 && (Run(hasSocket, steps).publisher.current == Some(id) ==> c.ended)
  {
    RunStep(hasSocket, steps, Dispose);
    RunKeeps(hasSocket, steps + [Dispose]);
    RunKeeps(hasSocket, steps);
  }

  /** What a closed publisher does not do: open a connection, add a row, report a loss. */
  predicate SilentSince(was: Publisher, now: Publisher) {
    && now.closed && now.current.None? && now.ready.None?
    && |now.connections| == |was.connections|
    && forall id | 0 <= id < |was.connections| ::
         && now.connections[id].rows == was.connections[id].rows
         && now.connections[id].losses == was.connections[id].losses
  }

  lemma ClosedStaysSilent(g: Plugin, step: Step)
    requires Coherent(g) && g.publisher.closed && Enabled(g, step)
    ensures SilentSince(g.publisher, Next(g, step).publisher)
  {
  }

  /** Once disposed, whatever comes: the plugin opens no connection, adds no row and reports no
      loss, and every stream it had stays ended or withdrawn. */
  lemma {:induction false} DisposedStaysSilent(hasSocket: bool, steps: seq<Step>, more: seq<Step>)
    requires Enabled(Run(hasSocket, steps), Dispose)
    ensures var was := Run(hasSocket, steps).publisher;
            var now := Run(hasSocket, steps + [Dispose] + more).publisher;
            && SilentSince(was, now)
            && forall id | 0 <= id < |was.connections| ::
                 now.connections[id].ended || (now.connections[id].acknowledged && !now.connections[id].isOpen)
    decreases |more|
  {
    var disposed := steps + [Dispose];
    RunKeeps(hasSocket, disposed + more);
    if more == [] {
      RunStep(hasSocket, steps, Dispose);
      assert disposed + more == disposed;
    } else {
      var (front, step) := (more[..|more| - 1], more[|more| - 1]);
      DisposedStaysSilent(hasSocket, steps, front);
      assert disposed + more == disposed + front + [step];
      RunStep(hasSocket, disposed + front, step);
      RunKeeps(hasSocket, disposed + front);
      if Enabled(Run(hasSocket, disposed + front), step) {
        ClosedStaysSilent(Run(hasSocket, disposed + front), step);
      }
    }
  }

  // ---------------------------------------------------------------- the class itself

  class AgentPublisher {
    const hasSocket: bool
    var latest: Option<Row>
    var closed: bool
    var current: Option<nat>
    var ready: Option<Ready>
    var connections: seq<Connection>

    ghost function View(): Publisher
      reads this
    {
      Publisher(hasSocket, latest, closed, current, ready, connections)
    }

    constructor (hasSocket: bool)
      ensures View() == Publisher(hasSocket, None, false, None, None, [])
    {
      this.hasSocket := hasSocket;
      latest, closed, current, ready, connections := None, false, None, None, [];
    }

    method OpenStream()
      requires ready.None?
      modifies this
      ensures View() == if hasSocket then old(View()).(connections := old(connections) + [Fresh],
                                                       current := Some(|old(connections)|),
                                                       ready := Some(Stream(|old(connections)|)))
                        else old(View()).(ready := Some(NoStream))
    {
      if !hasSocket {
        ready := Some(NoStream);
        return;
      }
      current := Some(|connections|);
      ready := Some(Stream(|connections|));
      connections := connections + [Fresh];
    }

    /** `publish` up to its `await`. */
    method BeginPublish(row: Row) returns (ticket: Ticket)
      modifies this
      ensures (View(), ticket) == Begin(old(View()), row)
    {
      latest := Some(row);
      if closed {
        return Refused;
      }
      if ready.None? {
        OpenStream();
      }
      return On(ready.value);
    }

    /** What awaiting `#ready` yields, once it yields anything. */
    method Result(ready: Ready) returns (open: Option<bool>)
      ensures open == Value(View(), ready)
    {
      open := None;
      if ready.NoStream? {
        open := Some(false);
      } else if ready.id < |connections| {
        open := connections[ready.id].result;
      }
    }

    method WriteLatest()
      requires current.Some? ==> current.value < |connections|
      modifies this
      ensures View() == Write(old(View()))
    {
      if latest.None? || current.None? {
        return;
      }
      var c := connections[current.value];
      connections := connections[current.value := c.(rows := c.rows + [latest.value])];
    }

    method CloseStream()
      modifies this
      ensures View() == Close(old(View()))
    {
      if current.Some? && current.value < |connections| {
        connections := connections[current.value := connections[current.value].(ended := true)];
      }
      closed := true;
      current := None;
      ready := None;
    }

    /** The `drop` callback; the caller runs `onLost` when it returns true. */
    method OnDrop(id: nat) returns (lost: bool)
      requires id < |connections|
      modifies this
      ensures (View(), lost) == Drop(old(View()), id)
    {
      if current == Some(id) {
        current := None;
        ready := None;
      }
      var c := connections[id];
      if !c.acknowledged {
        c := SettleWith(c, false);
      }
      c := c.(acknowledged := true);
      lost := false;
      if c.isOpen && !closed {
        c := c.(isOpen := false, losses := c.losses + 1);
        lost := true;
      }
      connections := connections[id := c];
    }

    method OnData(id: nat, line: Option<bool>)
      requires id < |connections|
      modifies this
      ensures View() == Data(old(View()), id, line)
    {
      var c := connections[id];
      if c.acknowledged || line.None? {
        return;
      }
      c := c.(acknowledged := true);
      if !line.value {
        if current == Some(id) {
          current := None;
          ready := None;
        }
      }
      c := SettleWith(c.(isOpen := line.value), line.value);
      connections := connections[id := c];
    }
  }

  /** The plugin itself: `agentStateHooks`, with its hooks and the callbacks they leave behind. Each
      method is one step of an event loop run. */
  class AgentStateHooks {
    const state: AgentState
    const publisher: AgentPublisher
    var waiters: map<nat, Waiter>
    var calls: nat
    var hooked: bool

    ghost function View(): Plugin
      reads this, state, publisher
    {
      Plugin(publisher.View(), state.View(), waiters, calls, hooked)
    }

    constructor (hasSocket: bool)
      ensures fresh(state) && fresh(publisher)
      ensures View() == Start(hasSocket) && Coherent(View())
    {
      state := new AgentState();
      publisher := new AgentPublisher(hasSocket);
      waiters, calls, hooked := map[], 0, false;
      new;
      PublishRow(Row(Idle, None), true);
      StartHolds(hasSocket);
    }

    method PublishRow(row: Row, initial: bool)
      modifies this, publisher
      ensures View() == Publish(old(View()), row, initial)
    {
      var ticket := publisher.BeginPublish(row);
      waiters := waiters[calls := Waiter(TicketStage(ticket), initial)];
      calls := calls + 1;
    }

    method OnEvent(event: Event)
      requires Coherent(View()) && Enabled(View(), Notify(event))
      modifies this, state, publisher
      ensures View() == Next(old(View()), Notify(event)) && Coherent(View())
    {
      StepKeeps(View(), Notify(event));
      var update := ReduceAgentEvent(state, event);
      if update.Some? {
        PublishRow(update.value, false);
      }
    }

    /** What follows the `await` in the publisher. */
    method ResumePublish(w: nat)
      requires Coherent(View()) && Enabled(View(), Resume(w))
      modifies this, publisher
      ensures View() == Next(old(View()), Resume(w)) && Coherent(View())
    {
      StepKeeps(View(), Resume(w));
      var result := publisher.Result(waiters[w].stage.ready);
      var open := result == Some(true);
      if open {
        publisher.WriteLatest();
      }
      waiters := waiters[w := waiters[w].(stage := Returned(open))];
    }

    /** What follows the `await` in the caller. */
    method FinishPublish(w: nat)
      requires Coherent(View()) && Enabled(View(), Finish(w))
      modifies this, state
      ensures View() == Next(old(View()), Finish(w)) && Coherent(View())
    {
      StepKeeps(View(), Finish(w));
      var Waiter(stage, initial) := waiters[w];
      waiters := waiters - {w};
      if initial {
        if stage.open {
          var _ := state.SettleRow();
        }
        hooked := true;
      } else if !stage.open {
        state.ForgetPublished();
      }
    }

    method OnReply(id: nat, line: Option<bool>)
      requires Coherent(View()) && Enabled(View(), Reply(id, line))
      modifies publisher
      ensures View() == Next(old(View()), Reply(id, line)) && Coherent(View())
    {
      StepKeeps(View(), Reply(id, line));
      publisher.OnData(id, line);
    }

    /** The stream is gone: an error, a close or the acknowledgement timer. */
    method OnGone(id: nat, step: Step)
      requires step == Lose(id) || step == TimedOut(id)
      requires Coherent(View()) && Enabled(View(), step)
      modifies publisher, state
      ensures View() == Next(old(View()), step) && Coherent(View())
    {
      StepKeeps(View(), step);
      var lost := publisher.OnDrop(id);
      if lost {
        state.ForgetPublished();
      }
    }

    method OnDispose()
      requires Coherent(View()) && Enabled(View(), Dispose)
      modifies publisher, state
      ensures View() == Next(old(View()), Dispose) && Coherent(View())
      ensures publisher.closed && publisher.current.None? && publisher.ready.None? && state.View() == Initial
      ensures old(publisher.current).Some? ==> publisher.connections[old(publisher.current).value].ended
    {
      StepKeeps(View(), Dispose);
      state.ClearAll();
      publisher.CloseStream();
    }
  }
}
