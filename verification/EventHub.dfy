/** The event hub (src/events.rs): bounded fan-out to filtered subscriptions.

    `World` is the hub together with the observations its promise is about: everything published,
    and what each receiver has taken out of its channel. The class `EventHub` is the hub's own
    code, and each of its methods is proved to take the world's step. */
module EventHubs {
  import opened Wrappers

  const CHANNEL_CAPACITY: nat := 128

  type Kind = nat

  /** An event with its serialized line. */
  datatype Event = Event(kind: Kind, json: string)

  /** The host and session an event is attributed to. */
  datatype EventScope = EventScope(host: string, session: Option<string>)

  /** Where a placed worker's subscription is confined to. */
  datatype WorkerBinding = WorkerBinding(host: string, session: Option<string>) {
    predicate Admits(scope: EventScope) {
      host == scope.host && (session.None? || session == scope.session)
    }
  }

  datatype Subscriber = Subscriber(id: nat, kinds: Option<set<Kind>>, binding: Option<WorkerBinding>) {
    predicate Wants(pub: Publication) {
      && (kinds.None? || pub.event.kind in kinds.value)
      && (binding.None? || (pub.scope.Some? && binding.value.Admits(pub.scope.value)))
    }
  }

  datatype Publication = Publication(event: Event, scope: Option<EventScope>)

  /** A sync channel: its buffered lines, and whether the receiving half still exists. */
  datatype Channel = Channel(queue: seq<string>, connected: bool) {
    predicate Accepts() {
      connected && |queue| < CHANNEL_CAPACITY
    }
  }

  /** What a subscription has seen: who it is, since when, and what its receiver took out.
      `cut` is the position of the publication that unregistered it. */
  datatype History = History(subscriber: Subscriber, since: nat, heard: seq<string>, cut: Option<nat>)

  datatype World = World(
    subscribers: seq<Subscriber>,
    channels: seq<Channel>,
    published: seq<Publication>,
    histories: seq<History>)

  const Initial := World([], [], [], [])

  datatype Op =
    | Subscribe(kinds: Option<set<Kind>>, binding: Option<WorkerBinding>)
    | Publish(pub: Publication)
    | Receive(id: nat)
    | DropReceiver(id: nat)

  /** `try_send` to one subscriber, and whether `retain` keeps it. */
  function Offer(sub: Subscriber, channel: Channel, pub: Publication): Channel {
    if sub.Wants(pub) && channel.Accepts() then channel.(queue := channel.queue + [pub.event.json]) else channel
  }

  predicate Keeps(sub: Subscriber, channel: Channel, pub: Publication) {
    sub.Wants(pub) ==> channel.Accepts()
  }

  predicate Registered(subs: seq<Subscriber>, id: nat) {
    exists k | 0 <= k < |subs| :: subs[k].id == id
  }

  /** The subscribers `retain` leaves. */
  function Retained(subs: seq<Subscriber>, channels: seq<Channel>, pub: Publication): seq<Subscriber>
    requires forall k | 0 <= k < |subs| :: subs[k].id < |channels|
  {
    if subs == [] then []
    else
      var rest := Retained(subs[..|subs| - 1], channels, pub);
      var last := subs[|subs| - 1];
      if Keeps(last, channels[last.id], pub) then rest + [last] else rest
  }

  predicate WellFormed(w: World) {
    && |w.channels| == |w.histories|
    && (forall k | 0 <= k < |w.subscribers| :: w.subscribers[k].id < |w.channels|)
    && (forall k | 0 <= k < |w.subscribers| ::
          w.subscribers[k] == w.histories[w.subscribers[k].id].subscriber)
    && (forall j, k | 0 <= j < k < |w.subscribers| :: w.subscribers[j].id != w.subscribers[k].id)
    && (forall id | 0 <= id < |w.histories| :: w.histories[id].subscriber.id == id)
  }

  function Apply(w: World, op: Op): World
    requires WellFormed(w)
  {
    match op
    case Subscribe(kinds, binding) =>
      var sub := Subscriber(|w.channels|, kinds, binding);
      World(w.subscribers + [sub], w.channels + [Channel([], true)], w.published,
            w.histories + [History(sub, |w.published|, [], None)])
    case Publish(pub) =>
      World(
        Retained(w.subscribers, w.channels, pub),
        seq(|w.channels|, id requires 0 <= id < |w.channels| =>
          if Registered(w.subscribers, id) then Offer(w.histories[id].subscriber, w.channels[id], pub)
          else w.channels[id]),
        w.published + [pub],
        seq(|w.histories|, id requires 0 <= id < |w.histories| =>
          if Registered(w.subscribers, id) && !Keeps(w.histories[id].subscriber, w.channels[id], pub)
          then w.histories[id].(cut := Some(|w.published|)) else w.histories[id]))
    case Receive(id) =>
      if id < |w.channels| && w.channels[id].queue != [] then
        var channel := w.channels[id];
        w.(channels := w.channels[id := channel.(queue := channel.queue[1..])],
           histories := w.histories[id := w.histories[id].(heard := w.histories[id].heard + [channel.queue[0]])])
      else w
    case DropReceiver(id) =>
      if id < |w.channels| then w.(channels := w.channels[id := Channel([], false)]) else w
  }

  /** The lines `sub` should see of `pubs`, in order. */
  function Wanted(sub: Subscriber, pubs: seq<Publication>): seq<string> {
    if pubs == [] then []
    else
      var rest := Wanted(sub, pubs[..|pubs| - 1]);
      if sub.Wants(pubs[|pubs| - 1]) then rest + [pubs[|pubs| - 1].event.json] else rest
  }

  /** The part of the event stream a subscription answers for: from its start to its cut, if any. */
  function Span(w: World, id: nat): seq<Publication>
    requires id < |w.histories|
    requires w.histories[id].since <= |w.published|
    requires w.histories[id].cut.Some? ==>
               w.histories[id].since <= w.histories[id].cut.value < |w.published|
  {
    var h := w.histories[id];
    if h.cut.Some? then w.published[h.since..h.cut.value] else w.published[h.since..]
  }

  /** The promise to one subscription: while its receiver exists, what it took out followed by what
      is buffered is exactly its share of the stream; a dropped receiver took out a prefix. */
  ghost predicate Delivered(w: World, id: nat)
    requires WellFormed(w) && id < |w.channels|
  {
    var h := w.histories[id];
    var channel := w.channels[id];
    && (h.cut.None? <==> Registered(w.subscribers, id))
    && h.since <= |w.published|
    && (h.cut.Some? ==> h.since <= h.cut.value < |w.published| && h.subscriber.Wants(w.published[h.cut.value]))
    && |channel.queue| <= CHANNEL_CAPACITY
    && (if channel.connected then h.heard + channel.queue == Wanted(h.subscriber, Span(w, id))
        else channel.queue == [] && h.heard <= Wanted(h.subscriber, Span(w, id)))
  }

  ghost predicate Inv(w: World) {
    && WellFormed(w)
    && forall id | 0 <= id < |w.channels| :: Delivered(w, id)
  }

  /** `Retained` keeps the order, and keeps exactly the subscribers that took or skipped the event. */
  lemma {:induction false} RetainedIs(subs: seq<Subscriber>, channels: seq<Channel>, pub: Publication)
    requires forall k | 0 <= k < |subs| :: subs[k].id < |channels|
    requires forall j, k | 0 <= j < k < |subs| :: subs[j].id != subs[k].id
    ensures var kept := Retained(subs, channels, pub);
            && (forall k | 0 <= k < |kept| :: kept[k] in subs)
            && (forall j, k | 0 <= j < k < |kept| :: kept[j].id != kept[k].id)
            && (forall sub | sub in subs :: sub in kept <==> Keeps(sub, channels[sub.id], pub))
  {
    if subs != [] {
      RetainedIs(subs[..|subs| - 1], channels, pub);
      assert subs == subs[..|subs| - 1] + [subs[|subs| - 1]];
      assert subs[|subs| - 1] !in subs[..|subs| - 1];
    }
  }

  /** Publishing touches a subscription only through its own filter and its own queue. */
  lemma PublishRegisters(w: World, pub: Publication, id: nat)
    requires WellFormed(w) && id < |w.channels|
    ensures Registered(Retained(w.subscribers, w.channels, pub), id) <==>
            Registered(w.subscribers, id) && Keeps(w.histories[id].subscriber, w.channels[id], pub)
  {
    RetainedIs(w.subscribers, w.channels, pub);
    var kept := Retained(w.subscribers, w.channels, pub);
    if Registered(w.subscribers, id) {
      var k :| 0 <= k < |w.subscribers| && w.subscribers[k].id == id;
      assert w.subscribers[k] in w.subscribers;
      if Keeps(w.subscribers[k], w.channels[id], pub) {
        assert w.subscribers[k] in kept;
        var j :| 0 <= j < |kept| && kept[j] == w.subscribers[k];
        assert kept[j].id == id;
      }
    }
    if Registered(kept, id) {
      var j :| 0 <= j < |kept| && kept[j].id == id;
      assert kept[j] in w.subscribers;
      var k :| 0 <= k < |w.subscribers| && w.subscribers[k] == kept[j];
      assert Registered(w.subscribers, id);
    }
  }

  lemma ApplyKeepsWellFormed(w: World, op: Op)
    requires WellFormed(w)
    ensures WellFormed(Apply(w, op))
  {
    if op.Publish? {
      RetainedIs(w.subscribers, w.channels, op.pub);
      var after := Apply(w, op);
      forall k | 0 <= k < |after.subscribers|
        ensures after.subscribers[k].id < |after.channels|
        ensures after.subscribers[k] == after.histories[after.subscribers[k].id].subscriber
      {
        assert after.subscribers[k] in w.subscribers;
      }
    }
  }

  lemma PublishDelivers(w: World, pub: Publication, id: nat)
    requires WellFormed(w) && id < |w.channels| && Delivered(w, id)
    requires WellFormed(Apply(w, Publish(pub)))
    ensures Delivered(Apply(w, Publish(pub)), id)
  {
    var after := Apply(w, Publish(pub));
    var h := w.histories[id];
    PublishRegisters(w, pub, id);
    if Registered(w.subscribers, id) {
      var longer := after.published[h.since..];
      assert longer[..|longer| - 1] == w.published[h.since..];
      if Keeps(h.subscriber, w.channels[id], pub) {
        assert Span(after, id) == longer;
      } else {
        assert Span(after, id) == w.published[h.since..];
      }
    } else {
      assert Span(after, id) == Span(w, id);
    }
  }

  lemma NewcomerRegisters(subs: seq<Subscriber>, sub: Subscriber, id: nat)
    ensures Registered(subs + [sub], id) <==> Registered(subs, id) || sub.id == id
  {
    var more := subs + [sub];
    assert more[|subs|] == sub;
    if k :| 0 <= k < |subs| && subs[k].id == id {
      assert more[k].id == id;
    }
  }

  lemma OtherOpsDeliver(w: World, op: Op, id: nat)
    requires WellFormed(w) && !op.Publish?
    requires WellFormed(Apply(w, op))
    requires id < |Apply(w, op).channels|
    requires id < |w.channels| ==> Delivered(w, id)
    ensures Delivered(Apply(w, op), id)
  {
    var after := Apply(w, op);
    if op.Subscribe? {
      NewcomerRegisters(w.subscribers, after.subscribers[|w.subscribers|], id);
    } else if op.Receive? && after != w && op.id == id {
      var queue := w.channels[id].queue;
      assert w.histories[id].heard + queue == w.histories[id].heard + [queue[0]] + queue[1..];
    }
  }

  lemma StepKeepsInv(w: World, op: Op)
    requires Inv(w)
    ensures Inv(Apply(w, op))
  {
    ApplyKeepsWellFormed(w, op);
    forall id | 0 <= id < |Apply(w, op).channels|
      ensures Delivered(Apply(w, op), id)
    {
      if op.Publish? {
        PublishDelivers(w, op.pub, id);
      } else {
        OtherOpsDeliver(w, op, id);
      }
    }
  }

  /** The world any sequence of subscribe, publish, receive and disconnect steps reaches. */
  ghost function Run(ops: seq<Op>): (w: World)
    ensures Inv(w)
  {
    if ops == [] then Initial
    else
      var before := Run(ops[..|ops| - 1]);
      StepKeepsInv(before, ops[|ops| - 1]);
      Apply(before, ops[|ops| - 1])
  }

  /** The lines a subscription to `kinds` confined to `binding` answers for, in order: those of the
      publications of its kinds, when it names any, that are attributed to its host and, when it is
      confined to a session, to that session. */
  function Share(kinds: Option<set<Kind>>, binding: Option<WorkerBinding>, pubs: seq<Publication>): seq<string> {
    if pubs == [] then []
    else
      var front := Share(kinds, binding, pubs[..|pubs| - 1]);
      var Publication(event, scope) := pubs[|pubs| - 1];
      if kinds.Some? && event.kind !in kinds.value then front
      else if binding.None? then front + [event.json]
      else if scope.None? || scope.value.host != binding.value.host then front
      else if binding.value.session.Some? && scope.value.session != binding.value.session then front
      else front + [event.json]
  }

  /** What a subscription wants is its share, whatever it filters for and is bound to. */
  lemma {:induction false} WantedIsShare(sub: Subscriber, pubs: seq<Publication>)
    ensures Wanted(sub, pubs) == Share(sub.kinds, sub.binding, pubs)
  {
    if pubs != [] {
      WantedIsShare(sub, pubs[..|pubs| - 1]);
    }
  }

  /** The share read by position: `at` lists, in order, exactly the publications whose kind is in the
      set and whose scope lies within the binding, and the share is their lines. */
  lemma {:induction false} ShareIsExactly(kinds: Option<set<Kind>>, binding: Option<WorkerBinding>,
                                          pubs: seq<Publication>)
    returns (at: seq<nat>)
    ensures forall j, k | 0 <= j < k < |at| :: at[j] < at[k]
    ensures forall i :: i in at <==>
              && 0 <= i < |pubs|
              && (kinds.Some? ==> pubs[i].event.kind in kinds.value)
              && (binding.Some? ==>
                    && pubs[i].scope.Some? && pubs[i].scope.value.host == binding.value.host
                    && (binding.value.session.Some? ==> pubs[i].scope.value.session == binding.value.session))
    ensures |Share(kinds, binding, pubs)| == |at|
    ensures forall k | 0 <= k < |at| :: at[k] in at && Share(kinds, binding, pubs)[k] == pubs[at[k]].event.json
  {
    at := [];
    if pubs != [] {
      var front := pubs[..|pubs| - 1];
      at := ShareIsExactly(kinds, binding, front);
      if |Share(kinds, binding, pubs)| > |Share(kinds, binding, front)| {
        at := at + [|front|];
      }
    }
  }

  /** Without a filter and a binding the share is every line. */
  lemma {:induction false} UnfilteredShare(pubs: seq<Publication>)
    ensures Share(None, None, pubs) == seq(|pubs|, i requires 0 <= i < |pubs| => pubs[i].event.json)
  {
    if pubs != [] {
      UnfilteredShare(pubs[..|pubs| - 1]);
    }
  }

  /** A live, registered subscription is never missing an event: what its receiver took out and
      what is queued is exactly its share of everything published since it subscribed. */
  lemma RegisteredHearsEverything(ops: seq<Op>, id: nat)
    requires id < |Run(ops).channels|
    requires Registered(Run(ops).subscribers, id) && Run(ops).channels[id].connected
    ensures var w := Run(ops);
            var h := w.histories[id];
            && h.since <= |w.published|
            && h.heard + w.channels[id].queue ==
               Share(h.subscriber.kinds, h.subscriber.binding, w.published[h.since..])
            && |w.channels[id].queue| <= CHANNEL_CAPACITY
  {
    var h := Run(ops).histories[id];
    assert Delivered(Run(ops), id);
    WantedIsShare(h.subscriber, Run(ops).published[h.since..]);
  }

  /** Wanted lists grow with the stream, so a shorter span is heard as a prefix. */
  lemma {:induction false} WantedIsMonotone(sub: Subscriber, pubs: seq<Publication>, more: seq<Publication>)
    requires pubs <= more
    ensures Wanted(sub, pubs) <= Wanted(sub, more)
  {
    if |pubs| == |more| {
      assert pubs == more;
    } else {
      WantedIsMonotone(sub, pubs, more[..|more| - 1]);
    }
  }

  /** Whatever became of it - cut off for being slow, disconnected, or both - a subscription has
      heard a prefix of its share and never a stream with a gap in it. */
  lemma NeverAGap(ops: seq<Op>, id: nat)
    requires id < |Run(ops).channels|
    ensures var w := Run(ops);
            var h := w.histories[id];
            && h.since <= |w.published|
            && h.heard + w.channels[id].queue <=
               Share(h.subscriber.kinds, h.subscriber.binding, w.published[h.since..])
  {
    var w := Run(ops);
    var h := w.histories[id];
    assert Delivered(w, id);
    assert Span(w, id) <= w.published[h.since..];
    WantedIsMonotone(h.subscriber, Span(w, id), w.published[h.since..]);
    WantedIsShare(h.subscriber, w.published[h.since..]);
  }

  /** What the publish steps among some operations published. */
  function PublishedBy(ops: seq<Op>): seq<Publication> {
    if ops == [] then []
    else
      var front := PublishedBy(ops[..|ops| - 1]);
      if ops[|ops| - 1].Publish? then front + [ops[|ops| - 1].pub] else front
  }

  lemma RunStep(ops: seq<Op>, op: Op)
    ensures Run(ops + [op]) == Apply(Run(ops), op)
    ensures PublishedBy(ops + [op]) == PublishedBy(ops) + if op.Publish? then [op.pub] else []
  {
    assert (ops + [op])[..|ops|] == ops;
  }

  /** A later world knows the subscription as it was and has since heard no less; `pubs` were
      published in between. */
  predicate Continues(w: World, after: World, id: nat, pubs: seq<Publication>) {
    && id < |w.histories| && id < |after.histories|
    && after.histories[id].subscriber == w.histories[id].subscriber
    && after.histories[id].since == w.histories[id].since
    && w.histories[id].heard <= after.histories[id].heard
    && after.published == w.published + pubs
  }

  lemma StepContinues(w: World, op: Op, id: nat)
    requires WellFormed(w) && id < |w.histories|
    ensures Continues(w, Apply(w, op), id, if op.Publish? then [op.pub] else [])
  {
  }

  lemma ContinuesOn(w: World, middle: World, after: World, id: nat, a: seq<Publication>, b: seq<Publication>)
    requires Continues(w, middle, id, a) && Continues(middle, after, id, b)
    ensures Continues(w, after, id, a + b)
  {
    assert w.published + a + b == w.published + (a + b);
  }

  /** Later steps change neither who subscribed nor since when, and only append to what was published. */
  lemma {:induction false} HistoryPersists(ops: seq<Op>, more: seq<Op>, id: nat)
    requires id < |Run(ops).histories|
    ensures Continues(Run(ops), Run(ops + more), id, PublishedBy(more))
    decreases |more|
  {
    if more == [] {
      assert ops + more == ops;
    } else {
      var (front, last) := (more[..|more| - 1], more[|more| - 1]);
      assert ops + more == ops + front + [last] && front + [last] == more;
      HistoryPersists(ops, front, id);
      RunStep(ops + front, last);
      RunStep(front, last);
      StepContinues(Run(ops + front), last, id);
      ContinuesOn(Run(ops), Run(ops + front), Run(ops + more), id, PublishedBy(front),
                  if last.Publish? then [last.pub] else []);
    }
  }

  /** From its subscribe step on, whatever comes before and after: a subscription that is still
      registered and connected has in hand exactly its share of what was published since, and any
      other has a prefix of it. */
  lemma SubscriptionHears(ops: seq<Op>, kinds: Option<set<Kind>>, binding: Option<WorkerBinding>, more: seq<Op>)
    ensures var w := Run(ops + [Subscribe(kinds, binding)] + more);
            var id := |Run(ops).channels|;
            var share := Share(kinds, binding, PublishedBy(more));
            && id < |w.channels|
            && w.histories[id].heard + w.channels[id].queue <= share
            && (Registered(w.subscribers, id) && w.channels[id].connected ==>
                  w.histories[id].heard + w.channels[id].queue == share)
  {
    var subscribed := ops + [Subscribe(kinds, binding)];
    var id := |Run(ops).channels|;
    RunStep(ops, Subscribe(kinds, binding));
    HistoryPersists(subscribed, more, id);
    NeverAGap(subscribed + more, id);
    assert Run(subscribed).histories[id] == History(Subscriber(id, kinds, binding), |Run(ops).published|, [], None);
    if Registered(Run(subscribed + more).subscribers, id) && Run(subscribed + more).channels[id].connected {
      RegisteredHearsEverything(subscribed + more, id);
    }
  }

  /** A publication the subscription's binding lets through. */
  predicate Within(sub: Subscriber, pub: Publication) {
    sub.binding.Some? ==> pub.scope.Some? && sub.binding.value.Admits(pub.scope.value)
  }

  /** A publish unregisters a subscription exactly when the event is of its kinds and within its
      binding and its receiver is gone or already holds a full channel; the cut is at that event. */
  lemma CutOffExactlyWhenFullOrGone(ops: seq<Op>, pub: Publication, id: nat)
    requires id < |Run(ops).channels| && Registered(Run(ops).subscribers, id)
    ensures var w := Run(ops);
            var after := Apply(w, Publish(pub));
            && (Registered(after.subscribers, id) <==>
                !((w.histories[id].subscriber.kinds.None? || pub.event.kind in w.histories[id].subscriber.kinds.value)
                  && Within(w.histories[id].subscriber, pub)
                  && (!w.channels[id].connected || |w.channels[id].queue| == CHANNEL_CAPACITY)))
            && (!Registered(after.subscribers, id) ==> after.histories[id].cut == Some(|w.published|))
  {
    assert Delivered(Run(ops), id);
    PublishRegisters(Run(ops), pub, id);
  }

  /** The stream as it would be had nothing been published outside the subscription's binding. */
  function OnlyWithin(sub: Subscriber, pubs: seq<Publication>): seq<Publication> {
    if pubs == [] then []
    else
      var front := OnlyWithin(sub, pubs[..|pubs| - 1]);
      if Within(sub, pubs[|pubs| - 1]) then front + [pubs[|pubs| - 1]] else front
  }

  /** Deleting what lies outside its binding changes nothing of what a subscription wants. */
  lemma {:induction false} OutsideIsUnheard(sub: Subscriber, pubs: seq<Publication>)
    ensures Wanted(sub, OnlyWithin(sub, pubs)) == Wanted(sub, pubs)
    ensures forall pub | pub in OnlyWithin(sub, pubs) :: pub in pubs && Within(sub, pub)
  {
    if pubs != [] {
      var front, last := pubs[..|pubs| - 1], pubs[|pubs| - 1];
      OutsideIsUnheard(sub, front);
      assert pubs == front + [last];
      if Within(sub, last) {
        var kept := OnlyWithin(sub, front);
        assert (kept + [last])[..|kept|] == kept;
      }
    }
  }

  /** A placed worker hears of its own sessions only: what it has received and has queued is what it
      would have, had every event outside its binding - above all, those that belong to no session -
      never been published. */
  lemma BoundSubscribersHearOnlyTheirSessions(ops: seq<Op>, id: nat)
    requires id < |Run(ops).channels|
    ensures var w := Run(ops);
            var h := w.histories[id];
            && h.since <= |w.published|
            && var within := OnlyWithin(h.subscriber, w.published[h.since..]);
            && (forall pub | pub in within :: Within(h.subscriber, pub))
            && h.heard + w.channels[id].queue <= Wanted(h.subscriber, within)
            && (Registered(w.subscribers, id) && w.channels[id].connected ==>
                  h.heard + w.channels[id].queue == Wanted(h.subscriber, within))
  {
    var w := Run(ops);
    var h := w.histories[id];
    NeverAGap(ops, id);
    OutsideIsUnheard(h.subscriber, w.published[h.since..]);
    WantedIsShare(h.subscriber, w.published[h.since..]);
    if Registered(w.subscribers, id) && w.channels[id].connected {
      RegisteredHearsEverything(ops, id);
    }
  }

  /** `retain` over the subscriber list: an event of other kinds, or outside the binding, leaves a
      subscriber and its channel alone; any other goes to its channel, or ends its registration. */
  method RetainSent(subs: seq<Subscriber>, channels: seq<Channel>, event: Event, scope: Option<EventScope>)
    returns (kept: seq<Subscriber>, sent: seq<Channel>)
    requires forall k | 0 <= k < |subs| :: subs[k].id < |channels|
    requires forall j, k | 0 <= j < k < |subs| :: subs[j].id != subs[k].id
    ensures kept == Retained(subs, channels, Publication(event, scope))
    ensures |sent| == |channels|
    ensures forall k | 0 <= k < |subs| ::
              sent[subs[k].id] == Offer(subs[k], channels[subs[k].id], Publication(event, scope))
    ensures forall id | 0 <= id < |channels| && !Registered(subs, id) :: sent[id] == channels[id]
    ensures forall sub | sub in subs && sub.kinds.Some? && event.kind !in sub.kinds.value ::
              sub in kept && sent[sub.id] == channels[sub.id]
    ensures forall sub | sub in subs && sub.binding.Some?
                         && (scope.None? || sub.binding.value.host != scope.value.host
                             || (sub.binding.value.session.Some?
                                 && sub.binding.value.session != scope.value.session)) ::
              sub in kept && sent[sub.id] == channels[sub.id]
    ensures forall sub | sub in subs && (sub.kinds.None? || event.kind in sub.kinds.value)
                         && (sub.binding.None?
                             || (scope.Some? && sub.binding.value.host == scope.value.host
                                 && (sub.binding.value.session.None?
                                     || sub.binding.value.session == scope.value.session))) ::
              if channels[sub.id].connected && |channels[sub.id].queue| < CHANNEL_CAPACITY
              then sub in kept && sent[sub.id] == Channel(channels[sub.id].queue + [event.json], true)
              else sub !in kept && sent[sub.id] == channels[sub.id]
  {
    RetainedIs(subs, channels, Publication(event, scope));
    ghost var pub := Publication(event, scope);
    kept, sent := [], channels;
    for i := 0 to |subs|
      invariant |sent| == |channels|
      invariant kept == Retained(subs[..i], channels, pub)
      invariant forall k | 0 <= k < i :: sent[subs[k].id] == Offer(subs[k], channels[subs[k].id], pub)
      invariant forall k | i <= k < |subs| :: sent[subs[k].id] == channels[subs[k].id]
      invariant forall id | 0 <= id < |channels| && !Registered(subs, id) :: sent[id] == channels[id]
    {
      var sub := subs[i];
      var channel := sent[sub.id];
      assert subs[..i + 1][..i] == subs[..i];
      if sub.kinds.Some? && event.kind !in sub.kinds.value {
        kept := kept + [sub];
      } else if sub.binding.Some? && !(scope.Some? && sub.binding.value.Admits(scope.value)) {
        kept := kept + [sub];
      } else if channel.connected && |channel.queue| < CHANNEL_CAPACITY {
        sent := sent[sub.id := channel.(queue := channel.queue + [event.json])];
        kept := kept + [sub];
      }
    }
    assert subs[..|subs|] == subs;
  }

  /** Offering to every listed subscriber is the world's publish step on the channels. */
  lemma OffersMatch(w: World, pub: Publication, sent: seq<Channel>)
    requires WellFormed(w) && |sent| == |w.channels|
    requires forall k | 0 <= k < |w.subscribers| ::
               sent[w.subscribers[k].id] == Offer(w.subscribers[k], w.channels[w.subscribers[k].id], pub)
    requires forall id | 0 <= id < |w.channels| && !Registered(w.subscribers, id) :: sent[id] == w.channels[id]
    ensures sent == Apply(w, Publish(pub)).channels
  {
    forall id | 0 <= id < |sent|
      ensures sent[id] == Apply(w, Publish(pub)).channels[id]
    {
      if Registered(w.subscribers, id) {
        var k :| 0 <= k < |w.subscribers| && w.subscribers[k].id == id;
      }
    }
  }

  /** The hub's own state, and ghost `world`: the observations the promise is stated over. */
  class EventHub {
    var subscribers: seq<Subscriber>
    var channels: seq<Channel>
    ghost var world: World

    ghost predicate Valid()
      reads this
    {
      Inv(world) && subscribers == world.subscribers && channels == world.channels
    }

    constructor ()
      ensures Valid() && world == Initial
    {
      subscribers, channels := [], [];
      world := Initial;
    }

    method SubscribeBound(kinds: Option<set<Kind>>, binding: Option<WorkerBinding>) returns (id: nat)
      requires Valid()
      modifies this
      ensures Valid() && world == Apply(old(world), Subscribe(kinds, binding))
      ensures id == |old(channels)| && Registered(subscribers, id)
      ensures subscribers == old(subscribers) + [Subscriber(id, kinds, binding)]
      ensures channels == old(channels) + [Channel([], true)]
    {
      id := |channels|;
      StepKeepsInv(world, Subscribe(kinds, binding));
      world := Apply(world, Subscribe(kinds, binding));
      channels := channels + [Channel([], true)];
      subscribers := subscribers + [Subscriber(id, kinds, binding)];
      assert subscribers[|subscribers| - 1].id == id;
    }

    method PublishScoped(event: Event, scope: Option<EventScope>)
      requires Valid()
      modifies this
      ensures Valid() && world == Apply(old(world), Publish(Publication(event, scope)))
    {
      ghost var pub := Publication(event, scope);
      ghost var after := Apply(world, Publish(pub));
      StepKeepsInv(world, Publish(pub));
      if subscribers == [] {
        assert channels == after.channels;
      } else {
        subscribers, channels := RetainSent(subscribers, channels, event, scope);
        assert channels == after.channels by {
          OffersMatch(old(world), pub, channels);
        }
      }
      world := after;
    }

    /** The receiving half taking one buffered line, if there is one. */
    method Receive(id: nat) returns (line: Option<string>)
      requires Valid() && id < |channels|
      modifies this
      ensures Valid() && world == Apply(old(world), Op.Receive(id))
      ensures line == if old(channels)[id].queue == [] then None else Some(old(channels)[id].queue[0])
      ensures line.Some? ==>
                && channels[id].queue == old(channels)[id].queue[1..]
                && world.histories[id].heard == old(world).histories[id].heard + [line.value]
    {
      StepKeepsInv(world, Op.Receive(id));
      world := Apply(world, Op.Receive(id));
      if channels[id].queue == [] {
        line := None;
      } else {
        line := Some(channels[id].queue[0]);
        channels := channels[id := channels[id].(queue := channels[id].queue[1..])];
      }
    }

    /** Dropping the receiver discards what it had not taken out. */
    method DropReceiver(id: nat)
      requires Valid() && id < |channels|
      modifies this
      ensures Valid() && world == Apply(old(world), Op.DropReceiver(id))
      ensures channels == old(channels)[id := Channel([], false)]
    {
      StepKeepsInv(world, Op.DropReceiver(id));
      world := Apply(world, Op.DropReceiver(id));
      channels := channels[id := Channel([], false)];
    }
  }
}
