/** The OpenCode sessions that share a pane, and the one row published for all of them
    (`AgentState` and `reduceAgentEvent` in plugins/opencode/rozi-agent-state.js).

    JavaScript maps and sets iterate in insertion order, and the published reason depends on it, so
    each one is modelled with its order: a sequence without repetitions. */
module AgentStates {
  import opened Wrappers

  datatype Kind = Permission | Question

  datatype Status = Idle | Working | Blocked

  /** Why a session is blocked: `permission required`, `answer required` or `session error`. */
  datatype Reason = PermissionRequired | AnswerRequired | SessionError

  datatype Row = Row(status: Status, reason: Option<Reason>)

  /** A value that should be a string, as an event carries it: `None` for anything else. */
  type Field = Option<string>

  /** The event types the reducer switches on; everything else is `Other`. */
  datatype EventType =
    | SessionStatusChanged | SessionIdle | SessionErrored | SessionDeleted
    | PermissionAsked | PermissionV2Asked | QuestionAsked
    | PermissionReplied | PermissionV2Replied | QuestionReplied | QuestionRejected
    | Other

  datatype Event = Event(kind: EventType, sessionID: Field, id: Field, requestID: Field, statusType: Field)

  /** Open prompts of one session, by kind. */
  type Prompts = map<Kind, set<string>>

  datatype State = State(
    requestOrder: seq<string>,
    requests: map<string, Prompts>,
    busy: seq<string>,
    errored: seq<string>,
    published: Option<Row>)

  const Initial := State([], map[], [], [], None)

  // ---------------------------------------------------------------- insertion-ordered sets

  function Insert(order: seq<string>, x: string): (r: seq<string>)
    ensures forall y :: y in r <==> y in order || y == x
  {
    if x in order then order else order + [x]
  }

  function Delete(order: seq<string>, x: string): (r: seq<string>)
    ensures forall y :: y in r <==> y in order && y != x
  {
    if order == [] then []
    else if order[0] == x then Delete(order[1..], x)
    else [order[0]] + Delete(order[1..], x)
  }

  function InsertAll(order: seq<string>, more: seq<string>): (r: seq<string>)
    ensures forall y :: y in r <==> y in order || y in more
    decreases |more|
  {
    if more == [] then order else InsertAll(Insert(order, more[0]), more[1..])
  }

  // ---------------------------------------------------------------- one session's status

  predicate Nonempty(field: Field) {
    field.Some? && field.value != ""
  }

  function BlockedReason(kind: Kind): Reason {
    match kind
    case Permission => PermissionRequired
    case Question => AnswerRequired
  }

  function SessionStatus(s: State, session: string): Row {
    if session in s.requests then
      Row(Blocked, Some(BlockedReason(if Permission in s.requests[session] then Permission else Question)))
    else if session in s.errored then Row(Blocked, Some(SessionError))
    else if session in s.busy then Row(Working, None)
    else Row(Idle, None)
  }

  /** Each session once, in the order the aggregate visits them. */
  function SessionOrder(s: State): seq<string> {
    InsertAll(InsertAll(InsertAll([], s.requestOrder), s.busy), s.errored)
  }

  /** The aggregate over `sessions` in order: the first blocked one speaks for the pane. */
  function Scan(s: State, sessions: seq<string>, working: bool): Row {
    if sessions == [] then Row(if working then Working else Idle, None)
    else
      var row := SessionStatus(s, sessions[0]);
      if row.status == Blocked then row else Scan(s, sessions[1..], working || row.status == Working)
  }

  function Aggregate(s: State): Row {
    Scan(s, SessionOrder(s), false)
  }

  // ---------------------------------------------------------------- transitions

  function Add(s: State, sessionID: Field, kind: Kind, id: Field): State {
    if !Nonempty(sessionID) || !Nonempty(id) then s
    else
      var session := sessionID.value;
      var byKind := if session in s.requests then s.requests[session] else map[];
      var ids := if kind in byKind then byKind[kind] else {};
      s.(requestOrder := Insert(s.requestOrder, session),
         requests := s.requests[session := byKind[kind := ids + {id.value}]],
         busy := Insert(s.busy, session))
  }

  function Resolve(s: State, sessionID: Field, kind: Kind, requestID: Field): State {
    if !Nonempty(sessionID) || !Nonempty(requestID) then s
    else
      var session := sessionID.value;
      if session !in s.requests || kind !in s.requests[session] || requestID.value !in s.requests[session][kind] then s
      else
        var ids := s.requests[session][kind] - {requestID.value};
        var byKind := if ids == {} then s.requests[session] - {kind} else s.requests[session][kind := ids];
        if byKind == map[] then
          s.(requestOrder := Delete(s.requestOrder, session), requests := s.requests - {session})
        else s.(requests := s.requests[session := byKind])
  }

  function SetBusy(s: State, sessionID: Field, busy: bool): State {
    if !Nonempty(sessionID) || sessionID.value in s.requests then s
    else s.(errored := Delete(s.errored, sessionID.value),
            busy := if busy then Insert(s.busy, sessionID.value) else Delete(s.busy, sessionID.value))
  }

  function SetErrored(s: State, sessionID: Field): State {
    if Nonempty(sessionID) then s.(errored := Insert(s.errored, sessionID.value)) else s
  }

  function ClearSession(s: State, sessionID: Field): State {
    if !Nonempty(sessionID) then s
    else s.(requestOrder := Delete(s.requestOrder, sessionID.value),
            requests := s.requests - {sessionID.value},
            busy := Delete(s.busy, sessionID.value),
            errored := Delete(s.errored, sessionID.value))
  }

  /** The row to publish, or nothing when the pane already shows it. */
  function Settle(s: State): (State, Option<Row>) {
    var next := Aggregate(s);
    if s.published == Some(next) then (s, None) else (s.(published := Some(next)), Some(next))
  }

  function Forget(s: State): State {
    s.(published := None)
  }

  predicate Recognized(e: Event) {
    !e.kind.Other?
  }

  /** What an event does to the sessions, before the aggregate is compared with the pane. */
  function Observe(s: State, e: Event): State {
    match e.kind
    case SessionStatusChanged => SetBusy(s, e.sessionID, e.statusType != Some("idle"))
    case SessionIdle => SetBusy(s, e.sessionID, false)
    case SessionErrored => SetErrored(s, e.sessionID)
    case PermissionAsked => Add(s, e.sessionID, Permission, e.id)
    case PermissionV2Asked => Add(s, e.sessionID, Permission, e.id)
    case QuestionAsked => Add(s, e.sessionID, Question, e.id)
    case PermissionReplied => Resolve(s, e.sessionID, Permission, e.requestID)
    case PermissionV2Replied => Resolve(s, e.sessionID, Permission, e.requestID)
    case QuestionReplied => Resolve(s, e.sessionID, Question, e.requestID)
    case QuestionRejected => Resolve(s, e.sessionID, Question, e.requestID)
    case SessionDeleted => ClearSession(s, e.sessionID)
    case Other => s
  }

  function Reduce(s: State, e: Event): (State, Option<Row>) {
    if Recognized(e) then Settle(Observe(s, e)) else (s, None)
  }

  /** Everything the plugin ever does to its state. */
  datatype Act = Reduced(event: Event) | Forgot | Settled | Cleared

  function Apply(s: State, act: Act): State {
    match act
    case Reduced(event) => Reduce(s, event).0
    case Forgot => Forget(s)
    case Settled => Settle(s).0
    case Cleared => Initial
  }

  function Run(acts: seq<Act>): State {
    if acts == [] then Initial else Apply(Run(acts[..|acts| - 1]), acts[|acts| - 1])
  }

  // ---------------------------------------------------------------- invariant

  predicate HasPrompt(s: State, session: string) {
    session in s.requests
  }

  /** A session with an open prompt is recorded busy, and only such sessions are in `requests`. */
  ghost predicate Inv(s: State) {
    && (forall session :: session in s.requests <==> session in s.requestOrder)
    && (forall session | session in s.requests :: s.requests[session] != map[] && session in s.busy)
    && (forall session, kind | session in s.requests && kind in s.requests[session] ::
          s.requests[session][kind] != {})
  }

  lemma AddKeepsInv(s: State, sessionID: Field, kind: Kind, id: Field)
    requires Inv(s)
    ensures Inv(Add(s, sessionID, kind, id))
  {
  }

  lemma ResolveKeepsInv(s: State, sessionID: Field, kind: Kind, requestID: Field)
    requires Inv(s)
    ensures Inv(Resolve(s, sessionID, kind, requestID))
  {
  }

  lemma ObserveKeepsInv(s: State, e: Event)
    requires Inv(s)
    ensures Inv(Observe(s, e))
  {
    match e.kind
    case PermissionAsked => AddKeepsInv(s, e.sessionID, Permission, e.id);
    case PermissionV2Asked => AddKeepsInv(s, e.sessionID, Permission, e.id);
    case QuestionAsked => AddKeepsInv(s, e.sessionID, Question, e.id);
    case PermissionReplied => ResolveKeepsInv(s, e.sessionID, Permission, e.requestID);
    case PermissionV2Replied => ResolveKeepsInv(s, e.sessionID, Permission, e.requestID);
    case QuestionReplied => ResolveKeepsInv(s, e.sessionID, Question, e.requestID);
    case QuestionRejected => ResolveKeepsInv(s, e.sessionID, Question, e.requestID);
    case _ =>
  }

  lemma ApplyKeepsInv(s: State, act: Act)
    requires Inv(s)
    ensures Inv(Apply(s, act))
  {
    if act.Reduced? {
      ObserveKeepsInv(s, act.event);
    }
  }

  /** In every reachable state each session with an open prompt is recorded busy. */
  lemma {:induction false} PromptsAreBusy(acts: seq<Act>)
    ensures Inv(Run(acts))
  {
    if acts != [] {
      PromptsAreBusy(acts[..|acts| - 1]);
      ApplyKeepsInv(Run(acts[..|acts| - 1]), acts[|acts| - 1]);
    }
  }

  /** Only an answer or a deletion takes a session out of the prompted ones, and an answer leaves
      everything else about it alone. */
  lemma PromptEnds(s: State, e: Event, session: string)
    requires HasPrompt(s, session) && !HasPrompt(Observe(s, e), session) && !e.kind.SessionDeleted?
    ensures Observe(s, e).busy == s.busy && Observe(s, e).errored == s.errored
  {
  }

  /** Answering a session's last prompt resumes its run (or shows its error); it never reads as a
      finished one. Deleting the session is the only other way a prompt goes away. */
  lemma AnswerResumes(s: State, e: Event, session: string)
    requires Inv(s) && HasPrompt(s, session) && !HasPrompt(Reduce(s, e).0, session)
    requires !e.kind.SessionDeleted?
    ensures SessionStatus(Reduce(s, e).0, session) ==
            if session in s.errored then Row(Blocked, Some(SessionError)) else Row(Working, None)
  {
    var after := Reduce(s, e).0;
    assert after == Observe(s, e).(published := after.published);
    PromptEnds(s, e, session);
  }

  /** So in no run does the answer to a session's last prompt leave it idle. */
  lemma LastAnswerNeverIdles(acts: seq<Act>, e: Event, session: string)
    ensures var (before, after) := (Run(acts), Run(acts + [Reduced(e)]));
            HasPrompt(before, session) && !HasPrompt(after, session) && !e.kind.SessionDeleted? ==>
              SessionStatus(after, session).status != Idle
  {
    PromptsAreBusy(acts);
    assert (acts + [Reduced(e)])[..|acts|] == acts;
    var before := Run(acts);
    assert Run(acts + [Reduced(e)]) == Reduce(before, e).0;
    if HasPrompt(before, session) && !HasPrompt(Reduce(before, e).0, session) && !e.kind.SessionDeleted? {
      AnswerResumes(before, e, session);
    }
  }

  predicate Open(s: State, session: string, kind: Kind, id: string) {
    session in s.requests && kind in s.requests[session] && id in s.requests[session][kind]
  }

  lemma ResolveKeepsOthers(s: State, sessionID: Field, answered: Kind, requestID: Field,
                           session: string, kind: Kind, id: string)
    requires Open(s, session, kind, id)
    requires !(sessionID == Some(session) && answered == kind && requestID == Some(id))
    ensures Open(Resolve(s, sessionID, answered, requestID), session, kind, id)
  {
    if sessionID == Some(session) && requestID.Some? && answered in s.requests[session] {
      var ids := s.requests[session][answered] - {requestID.value};
      var byKind := if ids == {} then s.requests[session] - {answered} else s.requests[session][answered := ids];
      assert answered == kind ==> id in ids;
      assert kind in byKind && id in byKind[kind];
    }
  }

  lemma ObserveKeepsOpen(s: State, e: Event, session: string, kind: Kind, id: string)
    requires Open(s, session, kind, id)
    requires e.sessionID == Some(session) ==>
               && !e.kind.SessionDeleted?
               && !(e.requestID == Some(id) && kind == Permission
                    && (e.kind.PermissionReplied? || e.kind.PermissionV2Replied?))
               && !(e.requestID == Some(id) && kind == Question
                    && (e.kind.QuestionReplied? || e.kind.QuestionRejected?))
    ensures Open(Observe(s, e), session, kind, id)
  {
    match e.kind
    case PermissionReplied => ResolveKeepsOthers(s, e.sessionID, Permission, e.requestID, session, kind, id);
    case PermissionV2Replied => ResolveKeepsOthers(s, e.sessionID, Permission, e.requestID, session, kind, id);
    case QuestionReplied => ResolveKeepsOthers(s, e.sessionID, Question, e.requestID, session, kind, id);
    case QuestionRejected => ResolveKeepsOthers(s, e.sessionID, Question, e.requestID, session, kind, id);
    case _ =>
  }

  /** No event short of its own answer, or the deletion of its session, closes an open prompt or
      unblocks the session: not an `idle` status, not another prompt's answer, not an error. */
  lemma PromptBlocksUntilAnswered(s: State, e: Event, session: string, kind: Kind, id: string)
    requires Open(s, session, kind, id)
    requires e.sessionID == Some(session) ==>
               && !e.kind.SessionDeleted?
               && !(e.requestID == Some(id) && kind == Permission
                    && (e.kind.PermissionReplied? || e.kind.PermissionV2Replied?))
               && !(e.requestID == Some(id) && kind == Question
                    && (e.kind.QuestionReplied? || e.kind.QuestionRejected?))
    ensures Open(Reduce(s, e).0, session, kind, id)
    ensures SessionStatus(Reduce(s, e).0, session).status == Blocked
  {
    ObserveKeepsOpen(s, e, session, kind, id);
    var observed := Observe(s, e);
    assert Recognized(e) ==> Reduce(s, e).0.requests == observed.requests;
  }

  /** Two states that agree on one session. */
  predicate SameFor(s: State, t: State, session: string) {
    && (session in s.requests <==> session in t.requests)
    && (session in s.requests ==> s.requests[session] == t.requests[session])
    && (session in s.busy <==> session in t.busy)
    && (session in s.errored <==> session in t.errored)
  }

  lemma ObserveIsLocal(s: State, e: Event, other: string)
    requires e.sessionID != Some(other)
    ensures SameFor(s, Observe(s, e), other)
  {
  }

  /** Events of one session never change another's status. */
  lemma SessionsDoNotInterfere(s: State, e: Event, other: string)
    requires e.sessionID != Some(other)
    ensures SessionStatus(Reduce(s, e).0, other) == SessionStatus(s, other)
  {
    ObserveIsLocal(s, e, other);
    var after := Reduce(s, e).0;
    assert SameFor(s, after, other);
  }

  /** An event without a session, and a prompt or an answer without an id, changes no session. */
  lemma NamelessIsIgnored(s: State, e: Event)
    ensures e.sessionID in {None, Some("")} ==> Observe(s, e) == s
    ensures e.kind in {PermissionAsked, PermissionV2Asked, QuestionAsked} && e.id in {None, Some("")} ==>
              Observe(s, e) == s
    ensures e.kind in {PermissionReplied, PermissionV2Replied, QuestionReplied, QuestionRejected}
            && e.requestID in {None, Some("")} ==>
              Observe(s, e) == s
  {
  }

  // ---------------------------------------------------------------- one session by itself

  /** A session seen by itself: its open prompts, and whether it is busy or errored. */
  datatype Solo = Solo(prompts: set<(Kind, string)>, busy: bool, errored: bool)

  const Untouched := Solo({}, false, false)

  function Asked(v: Solo, kind: Kind, id: Field): Solo {
    if Nonempty(id) then Solo(v.prompts + {(kind, id.value)}, true, v.errored) else v
  }

  function Answered(v: Solo, kind: Kind, id: Field): Solo {
    if Nonempty(id) then v.(prompts := v.prompts - {(kind, id.value)}) else v
  }

  /** What a session's own event means for it. Status reports count only while it has no prompt. */
  function SoloStep(v: Solo, e: Event): Solo {
    match e.kind
    case SessionStatusChanged => if v.prompts == {} then Solo({}, e.statusType != Some("idle"), false) else v
    case SessionIdle => if v.prompts == {} then Untouched else v
    case SessionErrored => v.(errored := true)
    case SessionDeleted => Untouched
    case PermissionAsked => Asked(v, Permission, e.id)
    case PermissionV2Asked => Asked(v, Permission, e.id)
    case QuestionAsked => Asked(v, Question, e.id)
    case PermissionReplied => Answered(v, Permission, e.requestID)
    case PermissionV2Replied => Answered(v, Permission, e.requestID)
    case QuestionReplied => Answered(v, Question, e.requestID)
    case QuestionRejected => Answered(v, Question, e.requestID)
    case Other => v
  }

  function SoloRow(v: Solo): Row {
    if exists prompt | prompt in v.prompts :: prompt.0 == Permission then Row(Blocked, Some(PermissionRequired))
    else if v.prompts != {} then Row(Blocked, Some(AnswerRequired))
    else if v.errored then Row(Blocked, Some(SessionError))
    else if v.busy then Row(Working, None)
    else Row(Idle, None)
  }

  /** A session by itself over a run: its own events and nothing else, from the last clearing on. */
  function SoloRun(acts: seq<Act>, session: string): Solo {
    if acts == [] then Untouched
    else
      var v := SoloRun(acts[..|acts| - 1], session);
      match acts[|acts| - 1]
      case Reduced(e) => if e.sessionID == Some(session) then SoloStep(v, e) else v
      case Cleared => Untouched
      case _ => v
  }

  ghost function PromptsOf(s: State, session: string): set<(Kind, string)> {
    if session !in s.requests then {}
    else set kind, id | kind in s.requests[session] && id in s.requests[session][kind] :: (kind, id)
  }

  /** The part of the plugin's state that is about one session. */
  ghost function PartOf(s: State, session: string): Solo {
    Solo(PromptsOf(s, session), session in s.busy, session in s.errored)
  }

  lemma PromptIsOpen(s: State, session: string, kind: Kind, id: string)
    ensures (kind, id) in PromptsOf(s, session) <==> Open(s, session, kind, id)
  {
  }

  lemma AskedIsAdd(s: State, session: string, kind: Kind, id: Field)
    requires session != ""
    ensures PartOf(Add(s, Some(session), kind, id), session) == Asked(PartOf(s, session), kind, id)
  {
    var after := Add(s, Some(session), kind, id);
    forall prompt
      ensures prompt in PromptsOf(after, session) <==> prompt in Asked(PartOf(s, session), kind, id).prompts
    {
      PromptIsOpen(s, session, prompt.0, prompt.1);
      PromptIsOpen(after, session, prompt.0, prompt.1);
    }
  }

  /** An answer closes the prompt it answers and no other. */
  lemma ResolveCloses(s: State, session: string, answered: Kind, requestID: string, kind: Kind, id: string)
    requires session != "" && requestID != ""
    ensures Open(Resolve(s, Some(session), answered, Some(requestID)), session, kind, id) <==>
            Open(s, session, kind, id) && (answered, requestID) != (kind, id)
  {
    if Open(s, session, kind, id) && (answered, requestID) != (kind, id) {
      ResolveKeepsOthers(s, Some(session), answered, Some(requestID), session, kind, id);
    }
  }

  lemma AnsweredIsResolve(s: State, session: string, kind: Kind, id: Field)
    requires session != ""
    ensures PartOf(Resolve(s, Some(session), kind, id), session) == Answered(PartOf(s, session), kind, id)
  {
    var after := Resolve(s, Some(session), kind, id);
    forall prompt
      ensures prompt in PromptsOf(after, session) <==> prompt in Answered(PartOf(s, session), kind, id).prompts
    {
      if Nonempty(id) {
        ResolveCloses(s, session, kind, id.value, prompt.0, prompt.1);
      }
      PromptIsOpen(s, session, prompt.0, prompt.1);
      PromptIsOpen(after, session, prompt.0, prompt.1);
    }
  }

  lemma PromptedHasPrompts(s: State, session: string)
    requires Inv(s)
    ensures HasPrompt(s, session) <==> PromptsOf(s, session) != {}
  {
    if HasPrompt(s, session) {
      var kind :| kind in s.requests[session];
      var id :| id in s.requests[session][kind];
      PromptIsOpen(s, session, kind, id);
    }
  }

  lemma OwnEvent(s: State, e: Event, session: string)
    requires Inv(s) && e.sessionID == Some(session) && session != ""
    ensures PartOf(Observe(s, e), session) == SoloStep(PartOf(s, session), e)
  {
    match e.kind
    case PermissionAsked => AskedIsAdd(s, session, Permission, e.id);
    case PermissionV2Asked => AskedIsAdd(s, session, Permission, e.id);
    case QuestionAsked => AskedIsAdd(s, session, Question, e.id);
    case PermissionReplied => AnsweredIsResolve(s, session, Permission, e.requestID);
    case PermissionV2Replied => AnsweredIsResolve(s, session, Permission, e.requestID);
    case QuestionReplied => AnsweredIsResolve(s, session, Question, e.requestID);
    case QuestionRejected => AnsweredIsResolve(s, session, Question, e.requestID);
    case _ => PromptedHasPrompts(s, session);
  }

  /** Behind every pane each session is a machine of its own: after any run, what the plugin holds
      about a session is what the session's own events alone make of it. */
  lemma {:induction false} SessionIsItsOwnEvents(acts: seq<Act>, session: string)
    requires session != ""
    ensures PartOf(Run(acts), session) == SoloRun(acts, session)
  {
    if acts != [] {
      var front, act := acts[..|acts| - 1], acts[|acts| - 1];
      SessionIsItsOwnEvents(front, session);
      PromptsAreBusy(front);
      var s := Run(front);
      if act.Reduced? {
        var seen := Observe(s, act.event);
        if act.event.sessionID == Some(session) {
          OwnEvent(s, act.event, session);
        } else {
          ObserveIsLocal(s, act.event, session);
        }
        assert PartOf(Reduce(s, act.event).0, session) == PartOf(seen, session);
      }
    }
  }

  /** So its status, and the reason it is blocked, are those of the single-session machine. */
  lemma StatusOfOwnEvents(acts: seq<Act>, session: string)
    requires session != ""
    ensures SessionStatus(Run(acts), session) == SoloRow(SoloRun(acts, session))
  {
    SessionIsItsOwnEvents(acts, session);
    PromptsAreBusy(acts);
    var s := Run(acts);
    PromptedHasPrompts(s, session);
    if HasPrompt(s, session) && Permission in s.requests[session] {
      var id :| id in s.requests[session][Permission];
      PromptIsOpen(s, session, Permission, id);
    }
  }

  // ---------------------------------------------------------------- aggregate

  lemma {:induction false} ScanIsSeverity(s: State, sessions: seq<string>, working: bool)
    ensures var row := Scan(s, sessions, working);
            && (row.status == Blocked <==> exists x | x in sessions :: SessionStatus(s, x).status == Blocked)
            && (row.status == Blocked ==> exists x | x in sessions :: SessionStatus(s, x) == row)
            && (row.status != Blocked ==> row.reason == None)
            && (row.status != Blocked ==>
                  (row.status == Working <==>
                     working || exists x | x in sessions :: SessionStatus(s, x).status == Working))
  {
    if sessions != [] {
      var rest := sessions[1..];
      ScanIsSeverity(s, rest, working || SessionStatus(s, sessions[0]).status == Working);
      assert sessions[0] in sessions;
      assert forall x :: x in sessions <==> x == sessions[0] || x in rest;
    }
  }

  /** The pane's row is the most severe status of any session, whatever order they are visited in,
      and a blocked row is the row of some blocked session. */
  lemma AggregateIsSeverest(s: State)
    requires Inv(s)
    ensures var row := Aggregate(s);
            && (row.status == Blocked <==> exists session: string :: SessionStatus(s, session).status == Blocked)
            && (row.status == Working <==>
                  && (exists session: string :: SessionStatus(s, session).status == Working)
                  && (forall session: string :: SessionStatus(s, session).status != Blocked))
            && (row.status == Blocked ==> exists session: string :: SessionStatus(s, session) == row)
            && (row.status != Blocked ==> row.reason == None)
  {
    ScanIsSeverity(s, SessionOrder(s), false);
    assert forall session :: session !in SessionOrder(s) ==> SessionStatus(s, session).status == Idle;
  }

  /** The same sessions in the same states, recorded in whatever orders. */
  ghost predicate SameRecords(s: State, t: State) {
    && s.requests == t.requests
    && (forall session :: session in s.busy <==> session in t.busy)
    && (forall session :: session in s.errored <==> session in t.errored)
  }

  /** The most severe status of any session. */
  ghost function Severest(s: State): Status {
    if exists session: string :: SessionStatus(s, session).status == Blocked then Blocked
    else if exists session: string :: SessionStatus(s, session).status == Working then Working
    else Idle
  }

  /** Two records of the same sessions, inserted in whatever orders, aggregate to the same status. */
  lemma StatusIgnoresOrder(s: State, t: State)
    requires Inv(s) && Inv(t) && SameRecords(s, t)
    ensures Aggregate(s).status == Severest(s) == Severest(t) == Aggregate(t).status
  {
    assert Severest(s) == Severest(t) by {
      assert forall session: string :: SessionStatus(s, session) == SessionStatus(t, session);
    }
    assert Aggregate(s).status == Severest(s) by {
      AggregateIsSeverest(s);
    }
    assert Aggregate(t).status == Severest(t) by {
      AggregateIsSeverest(t);
    }
  }

  lemma {:induction false} InsertAllKeepsFirst(order: seq<string>, more: seq<string>)
    requires order != []
    ensures InsertAll(order, more) != [] && InsertAll(order, more)[0] == order[0]
    decreases |more|
  {
    if more != [] {
      InsertAllKeepsFirst(Insert(order, more[0]), more[1..]);
    }
  }

  lemma OrderKeepsFirst(s: State)
    requires s.requestOrder != []
    ensures SessionOrder(s) != [] && SessionOrder(s)[0] == s.requestOrder[0]
  {
    InsertAllKeepsFirst(Insert([], s.requestOrder[0]), s.requestOrder[1..]);
    InsertAllKeepsFirst(InsertAll([], s.requestOrder), s.busy);
    InsertAllKeepsFirst(InsertAll(InsertAll([], s.requestOrder), s.busy), s.errored);
  }

  /** A session asked for permission, and one that is only asked for an answer. */
  ghost predicate Contested(s: State) {
    && (exists a | a in s.requests :: Permission in s.requests[a])
    && (exists b | b in s.requests :: Permission !in s.requests[b])
  }

  /** The session prompted longest ago speaks for the pane. */
  lemma FirstPromptSpeaks(s: State)
    requires Inv(s) && s.requestOrder != []
    ensures s.requestOrder[0] in s.requests && Aggregate(s) == SessionStatus(s, s.requestOrder[0])
  {
    OrderKeepsFirst(s);
    assert s.requestOrder[0] in s.requestOrder;
  }

  /** The state in which `session` was prompted before all others. */
  function PromptedFirst(s: State, session: string): State {
    s.(requestOrder := [session] + Delete(s.requestOrder, session))
  }

  lemma PromptedFirstSpeaks(s: State, session: string)
    requires Inv(s) && session in s.requests
    ensures var t := PromptedFirst(s, session);
            Inv(t) && SameRecords(s, t) && Aggregate(t) == SessionStatus(s, session)
  {
    var t := PromptedFirst(s, session);
    assert forall x :: x in t.requestOrder <==> x == session || x in Delete(s.requestOrder, session);
    FirstPromptSpeaks(t);
  }

  /** Without any prompt a blocked pane has but one possible reason. */
  lemma UnpromptedReason(s: State)
    requires Inv(s) && s.requests == map[]
    ensures Aggregate(s).reason == if Aggregate(s).status == Blocked then Some(SessionError) else None
  {
    AggregateIsSeverest(s);
  }

  lemma UncontestedRow(s: State, t: State)
    requires Inv(s) && Inv(t) && SameRecords(s, t) && !Contested(s)
    ensures Aggregate(t) == Aggregate(s)
  {
    if s.requests == map[] {
      StatusIgnoresOrder(s, t);
      UnpromptedReason(s);
      UnpromptedReason(t);
    } else {
      var session :| session in s.requests;
      assert session in s.requestOrder && session in t.requestOrder;
      FirstPromptSpeaks(s);
      FirstPromptSpeaks(t);
    }
  }

  lemma ContestedRows(s: State)
    requires Inv(s) && Contested(s)
    ensures exists t :: Inv(t) && SameRecords(s, t) && Aggregate(t) != Aggregate(s)
  {
    var a :| a in s.requests && Permission in s.requests[a];
    var b :| b in s.requests && Permission !in s.requests[b];
    assert SessionStatus(s, a) != SessionStatus(s, b);
    var session := if SessionStatus(s, a) != Aggregate(s) then a else b;
    PromptedFirstSpeaks(s, session);
    assert Inv(PromptedFirst(s, session));
  }

  /** The published row depends on the order in which sessions were prompted if and only if one of
      them is asked for permission while another is only asked for an answer. */
  lemma RowFollowsOrderExactly(s: State)
    requires Inv(s)
    ensures (exists t :: Inv(t) && SameRecords(s, t) && Aggregate(t) != Aggregate(s)) <==> Contested(s)
  {
    if Contested(s) {
      ContestedRows(s);
    } else {
      forall t | Inv(t) && SameRecords(s, t)
        ensures Aggregate(t) == Aggregate(s)
      {
        UncontestedRow(s, t);
      }
    }
  }

  /** A session asking for permission or for an answer. */
  function Ask(kind: Kind, session: string): Event {
    Event(if kind == Permission then PermissionAsked else QuestionAsked, Some(session), Some("1"), None, None)
  }

  /** Two sessions asking in turn, then a dropped stream. */
  function AskInTurn(first: Event, second: Event): seq<Act> {
    [Reduced(first), Reduced(second), Forgot]
  }

  lemma RunInTurn(first: Event, second: Event)
    ensures Run(AskInTurn(first, second)) == Forget(Reduce(Reduce(Initial, first).0, second).0)
  {
    var acts := AskInTurn(first, second);
    assert acts[..2] == [Reduced(first), Reduced(second)];
    assert acts[..2][..1] == [Reduced(first)] && acts[..2][..1][..0] == [];
    assert Run(acts[..2][..1]) == Reduce(Initial, first).0;
    assert Run(acts[..2]) == Reduce(Reduce(Initial, first).0, second).0;
  }

  lemma ForgottenIsObserved(s: State, e: Event)
    requires Recognized(e)
    ensures Forget(Reduce(s, e).0) == Forget(Observe(s, e))
  {
  }

  lemma FirstAsk(kind: Kind, x: string)
    requires x != ""
    ensures Observe(Initial, Ask(kind, x)) == State([x], map[x := map[kind := {"1"}]], [x], [], None)
  {
    var none: set<string> := {};
    assert none + {"1"} == {"1"};
  }

  lemma SecondAsk(s: State, k: Kind, x: string, l: Kind, y: string)
    requires y != "" && x != y && s == State([x], map[x := map[k := {"1"}]], [x], [], s.published)
    ensures Forget(Observe(s, Ask(l, y))) ==
            State([x, y], map[x := map[k := {"1"}], y := map[l := {"1"}]], [x, y], [], None)
  {
    var none: set<string> := {};
    assert none + {"1"} == {"1"};
  }

  lemma AskedInTurn(k: Kind, x: string, l: Kind, y: string)
    requires x != "" && y != "" && x != y
    ensures Run(AskInTurn(Ask(k, x), Ask(l, y))) ==
            State([x, y], map[x := map[k := {"1"}], y := map[l := {"1"}]], [x, y], [], None)
  {
    RunInTurn(Ask(k, x), Ask(l, y));
    FirstAsk(k, x);
    var s := Reduce(Initial, Ask(k, x)).0;
    assert Forget(s) == Forget(Observe(Initial, Ask(k, x))) by {
      ForgottenIsObserved(Initial, Ask(k, x));
    }
    SecondAsk(s, k, x, l, y);
    ForgottenIsObserved(s, Ask(l, y));
  }

  /** Two sessions, one blocked for each reason, recorded in either order. */
  lemma EitherSpeaks(s: State, t: State, a: string, b: string)
    requires a != b
    requires s == State([a, b], map[a := map[Permission := {"1"}], b := map[Question := {"1"}]], [a, b], [], None)
    requires t == State([b, a], map[b := map[Question := {"1"}], a := map[Permission := {"1"}]], [b, a], [], None)
    ensures SameRecords(s, t)
    ensures Aggregate(s) == Row(Blocked, Some(PermissionRequired))
    ensures Aggregate(t) == Row(Blocked, Some(AnswerRequired))
  {
    OrderKeepsFirst(s);
    OrderKeepsFirst(t);
    assert Permission in s.requests[a] && Permission !in s.requests[b];
    assert Aggregate(s) == SessionStatus(s, a);
    assert Aggregate(t) == SessionStatus(t, b);
  }

  /** The order does matter in a run: for any two sessions the same two events, in either order,
      leave the same prompts open and publish different reasons. */
  lemma ReasonFollowsOrder(a: string, b: string)
    requires a != "" && b != "" && a != b
    ensures var s := Run(AskInTurn(Ask(Permission, a), Ask(Question, b)));
            var t := Run(AskInTurn(Ask(Question, b), Ask(Permission, a)));
            && SameRecords(s, t)
            && Aggregate(s) == Row(Blocked, Some(PermissionRequired))
            && Aggregate(t) == Row(Blocked, Some(AnswerRequired))
  {
    AskedInTurn(Permission, a, Question, b);
    AskedInTurn(Question, b, Permission, a);
    EitherSpeaks(Run(AskInTurn(Ask(Permission, a), Ask(Question, b))),
                 Run(AskInTurn(Ask(Question, b), Ask(Permission, a))), a, b);
  }

  lemma {:induction false} ScanIgnoresPublished(s: State, published: Option<Row>, sessions: seq<string>, working: bool)
    ensures Scan(s.(published := published), sessions, working) == Scan(s, sessions, working)
  {
    if sessions != [] {
      ScanIgnoresPublished(s, published, sessions[1..], working || SessionStatus(s, sessions[0]).status == Working);
    }
  }

  lemma AggregateIgnoresPublished(s: State, published: Option<Row>)
    ensures Aggregate(s.(published := published)) == Aggregate(s)
  {
    ScanIgnoresPublished(s, published, SessionOrder(s), false);
  }

  /** A recognized event returns a row exactly when the pane may not be showing it yet, and leaves
      the aggregate remembered either way. */
  lemma ReduceRemembers(s: State, e: Event)
    requires Recognized(e)
    ensures var (after, update) := Reduce(s, e);
            && after.published == Some(Aggregate(after))
            && (update == None <==> s.published == Some(Aggregate(after)))
            && (update.Some? ==> update.value == Aggregate(after))
  {
    var observed := Observe(s, e);
    AggregateIgnoresPublished(observed, Some(Aggregate(observed)));
    assert observed.published == s.published;
  }

  /** What is remembered as published never lags behind the sessions. */
  ghost predicate Remembers(s: State) {
    s.published.Some? ==> s.published.value == Aggregate(s)
  }

  /** In every reachable state, what is remembered as published is what the sessions aggregate to. */
  lemma {:induction false} RememberedIsCurrent(acts: seq<Act>)
    ensures Remembers(Run(acts))
  {
    if acts != [] {
      var s := Run(acts[..|acts| - 1]);
      RememberedIsCurrent(acts[..|acts| - 1]);
      match acts[|acts| - 1]
      case Reduced(e) =>
        if Recognized(e) {
          ReduceRemembers(s, e);
        }
      case Settled => AggregateIgnoresPublished(s, Some(Aggregate(s)));
      case _ =>
    }
  }

  // ---------------------------------------------------------------- the class itself

  class AgentState {
    var requestOrder: seq<string>
    var requests: map<string, Prompts>
    var busy: seq<string>
    var errored: seq<string>
    var published: Option<Row>

    ghost function View(): State
      reads this
    {
      State(requestOrder, requests, busy, errored, published)
    }

    constructor ()
      ensures View() == Initial
    {
      requestOrder, requests, busy, errored, published := [], map[], [], [], None;
    }

    method AddRequest(sessionID: Field, kind: Kind, id: Field) returns (added: bool)
      modifies this
      ensures View() == Add(old(View()), sessionID, kind, id)
      ensures added <==>
              && Nonempty(sessionID) && Nonempty(id)
              && !(sessionID.value in old(requests) && kind in old(requests)[sessionID.value]
                   && id.value in old(requests)[sessionID.value][kind])
    {
      if !Nonempty(sessionID) || !Nonempty(id) {
        return false;
      }
      var session := sessionID.value;
      var byKind: Prompts := map[];
      if session in requests {
        byKind := requests[session];
      }
      requestOrder := Insert(requestOrder, session);
      var ids := {};
      if kind in byKind {
        ids := byKind[kind];
      }
      var existed := id.value in ids;
      requests := requests[session := byKind[kind := ids + {id.value}]];
      busy := Insert(busy, session);
      return !existed;
    }

    method ResolveRequest(sessionID: Field, kind: Kind, requestID: Field) returns (resolved: bool)
      modifies this
      ensures View() == Resolve(old(View()), sessionID, kind, requestID)
      ensures resolved <==>
              && Nonempty(sessionID) && Nonempty(requestID)
              && sessionID.value in old(requests) && kind in old(requests)[sessionID.value]
              && requestID.value in old(requests)[sessionID.value][kind]
    {
      if !Nonempty(sessionID) || !Nonempty(requestID) {
        return false;
      }
      var session := sessionID.value;
      if session !in requests || kind !in requests[session] || requestID.value !in requests[session][kind] {
        return false;
      }
      var byKind := requests[session];
      var ids := byKind[kind] - {requestID.value};
      if ids == {} {
        byKind := byKind - {kind};
      } else {
        byKind := byKind[kind := ids];
      }
      if byKind == map[] {
        requests := requests - {session};
        requestOrder := Delete(requestOrder, session);
      } else {
        requests := requests[session := byKind];
      }
      return true;
    }

    method SessionRow(session: string) returns (row: Row)
      ensures row == SessionStatus(View(), session)
    {
      if session in requests {
        var kind := if Permission in requests[session] then Permission else Question;
        return Row(Blocked, Some(BlockedReason(kind)));
      }
      if session in errored {
        return Row(Blocked, Some(SessionError));
      }
      if session in busy {
        return Row(Working, None);
      }
      return Row(Idle, None);
    }

    method AggregateRow() returns (row: Row)
      ensures row == Aggregate(View())
    {
      var sessions := InsertAll(InsertAll(InsertAll([], requestOrder), busy), errored);
      var working := false;
      for i := 0 to |sessions|
        invariant Scan(View(), sessions, false) == Scan(View(), sessions[i..], working)
      {
        var state := SessionRow(sessions[i]);
        if state.status == Blocked {
          return state;
        }
        if state.status == Working {
          working := true;
        }
      }
      row := Row(if working then Working else Idle, None);
    }

    method SettleRow() returns (update: Option<Row>)
      modifies this`published
      ensures (View(), update) == Settle(old(View()))
    {
      var next := AggregateRow();
      if published.Some? && published.value.status == next.status && published.value.reason == next.reason {
        return None;
      }
      published := Some(next);
      return Some(next);
    }

    method SetSessionBusy(sessionID: Field, isBusy: bool)
      modifies this
      ensures View() == SetBusy(old(View()), sessionID, isBusy)
    {
      if !Nonempty(sessionID) || sessionID.value in requests {
        return;
      }
      errored := Delete(errored, sessionID.value);
      if isBusy {
        busy := Insert(busy, sessionID.value);
      } else {
        busy := Delete(busy, sessionID.value);
      }
    }

    method SetSessionErrored(sessionID: Field)
      modifies this
      ensures View() == SetErrored(old(View()), sessionID)
    {
      if Nonempty(sessionID) {
        errored := Insert(errored, sessionID.value);
      }
    }

    method ClearOneSession(sessionID: Field)
      modifies this
      ensures View() == ClearSession(old(View()), sessionID)
    {
      if Nonempty(sessionID) {
        requests := requests - {sessionID.value};
        requestOrder := Delete(requestOrder, sessionID.value);
        busy := Delete(busy, sessionID.value);
        errored := Delete(errored, sessionID.value);
      }
    }

    method ForgetPublished()
      modifies this
      ensures View() == Forget(old(View()))
    {
      published := None;
    }

    method ClearAll()
      modifies this
      ensures View() == Initial
    {
      requests, requestOrder, busy, errored, published := map[], [], [], [], None;
    }
  }

  /** The switch of `reduceAgentEvent`. */
  method ObserveEvent(state: AgentState, e: Event)
    modifies state
    ensures state.View() == Observe(old(state.View()), e)
  {
    match e.kind {
      case SessionStatusChanged => state.SetSessionBusy(e.sessionID, e.statusType != Some("idle"));
      case SessionIdle => state.SetSessionBusy(e.sessionID, false);
      case SessionErrored => state.SetSessionErrored(e.sessionID);
      case PermissionAsked => var _ := state.AddRequest(e.sessionID, Permission, e.id);
      case PermissionV2Asked => var _ := state.AddRequest(e.sessionID, Permission, e.id);
      case QuestionAsked => var _ := state.AddRequest(e.sessionID, Question, e.id);
      case PermissionReplied => var _ := state.ResolveRequest(e.sessionID, Permission, e.requestID);
      case PermissionV2Replied => var _ := state.ResolveRequest(e.sessionID, Permission, e.requestID);
      case QuestionReplied => var _ := state.ResolveRequest(e.sessionID, Question, e.requestID);
      case QuestionRejected => var _ := state.ResolveRequest(e.sessionID, Question, e.requestID);
      case SessionDeleted => state.ClearOneSession(e.sessionID);
      case Other =>
    }
  }

  method ReduceAgentEvent(state: AgentState, e: Event) returns (update: Option<Row>)
    modifies state
    ensures (state.View(), update) == Reduce(old(state.View()), e)
  {
    if e.kind.Other? {
      return None;
    }
    ObserveEvent(state, e);
    update := state.SettleRow();
  }
}
