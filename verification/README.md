# Rozi: verified models of its stateful cores

Dafny models of seven small cores of Rozi, each stateful or failure-prone, with proofs of what they
promise over every input, every fault schedule or every reachable state.

- **Extension store** (`ExtensionStore.dfy`). Installing, updating and removing extensions moves
  checkouts, records and the disabled list through single filesystem steps. The store is a class over
  a map from paths to contents, and a schedule decides which steps fail. A failed step leaves its
  target alone, and a rename or a write onto an existing path fails. `faults` counts the failed steps,
  and the times no fresh name was found in a hundred tries.
- **OpenCode plugin** (`AgentState.dfy`, `AgentPublisher.dfy`). The many sessions behind one pane, the
  single row published for them, and the publish stream that carries it: connect, acknowledge, time
  out, drop, reopen. The stream is a state machine over event-loop steps, in which microtasks run
  before the next socket or timer callback, and in any order among themselves.
- **Event hub** (`EventHub.dfy`). Bounded fan-out to filtered subscriptions, where a slow subscriber
  is cut off rather than left with a gap.
- **Session-host paths and layout restoring** (`HostPath.dfy`, `Layout.dfy`). A lexical path parser
  for Unix, drive and UNC roots, a containment order, rebasing a directory into another checkout, and
  giving the panes of a restored profile fresh ids.
- **Control line framing** (`ControlFraming.dfy`). A bounded reader over a stream delivered in chunks.
- **Job slots** (`JobSlots.dfy`). A compare-and-swap limiter under every interleaving of its callers.
- **Measurement tools** (`FrameMatching.dfy`, `WireRecords.dfy`, `PathDecoding.dfy`, `Wiretap.dfy`,
  `FrameFiles.dfy`). Matching presented frames to producer writes, the wire record written by the
  interposer and read by the benchmark, base64 with a wrapping accumulator, upload marks under
  partial writes, and byte-budgeted retention.

Code that changes state step by step is modelled as methods over fields, arrays or loop variables.
Each is proved against a specification function, and what the source promises is proved about that
function. `Wrappers.dfy` holds `Option` and `Result`, `Octets.dfy` the bytes of streams and files. `dafny verify dfyconfig.toml` checks everything.

Six things the proofs brought out:

- `latency_summary` documents that a skip longer than the fixture pool is reported as `ambiguous`.
  What the flag says is another thing: without re-anchoring it is raised if and only if some skip is
  one short of a whole number of pools (`AmbiguousExactly`). A recovery is wrong and still reported
  as unambiguous if and only if some skip reaches the pool and none is one short of whole pools
  (`WrongUnflaggedExactly`), as in the input of `WholePoolSkipGoesUnreported`. When the recovery is
  right is settled for all inputs, with and without re-anchoring (`RecoveryIsExact`).
- A rebased path can lose part of a Unix directory name that ends in a backslash
  (`TrailingBackslashIsLost`), can turn into a UNC path below a target of `/`
  (`BackslashBecomesRoot`), and can split a component that holds a backslash when the target is a
  Windows path (`BackslashSeparates`). `Carries` is the exact condition under which a rebased path
  lands where it should.
- Replacing a layout from a profile whose panes are all in out-of-range workspaces falls back to the
  default attachment, whose pane is numbered 1 whatever first id was asked for; and ids can collide
  once they saturate. `ReplacementIsSound` gives the exact condition.
- Joining a name to the bare root with a slash gives `//name`, which reads as a UNC path: it is the one
  path for which going down into a directory and up again is not where one was (`Descends`, `DownAndUp`).
- `install_link` checks that the source path is UTF-8 after making the link, and does not undo the
  link. It is harmless only because resolving the source has already made the same check.
- The published status depends on the set of sessions only. The published reason also depends on the
  order in which they were prompted, if and only if one of them is asked for permission while another
  is only asked for an answer (`RowFollowsOrderExactly`), and runs reach both (`ReasonFollowsOrder`).

## Model

| member | source | states |
|---|---|---|
| `JobSlots.CounterIsHeldSlots` | src/jobs.rs:23-60 | in every interleaving, with spurious exchange failures, failed spawns and panicking jobs, the counter is the number of held slots, at most 32, and no call gives back more than the one slot it took |
| `JobSlots.NoSlotIsLost` | src/jobs.rs:27-46 | once every call and job has finished, the counter is back to zero |
| `JobSlots.RejectedOnlyWhenFull` | src/jobs.rs:48-53 | a call is turned away if and only if 32 slots are held at that moment |
| `JobSlots.ExchangeTakesAFreeSlot` | src/jobs.rs:54-59 | an exchange that succeeds, however stale its operand, adds exactly this call to fewer than 32 holders |
| `JobSlots.LaunchedExactlyWhenCreated` | src/jobs.rs:27-46 | a call reports a launched job if and only if its thread was created, and a call whose thread was not ends as not launched |
| `JobSlots.UndisturbedCallLaunches` | src/jobs.rs:27-60 | a call that meets fewer than 32 held slots and no other call gets its job running in a slot of its own |
| `JobSlots.EveryWayGivesBack` | src/jobs.rs:23-46 | thread creation failing, the job returning and the job panicking each give exactly this call's slot back |
| `JobSlots.StepKeepsInv` | src/jobs.rs:27-60 | every atomic access keeps the counter right and every call's acquisitions and releases balanced |
| `JobSlots.ReleaseKeepsInv` | src/jobs.rs:34-44 | giving a slot back never wraps the counter around |
| `EventHubs.RegisteredHearsEverything` | src/events.rs:90-143 | what a live registered subscriber has received followed by its queue is exactly its share of everything since it subscribed - the lines of its kinds within its binding, in order - with at most 128 queued |
| `EventHubs.SubscriptionHears` | src/events.rs:90-143 | from the moment it is made, whatever happens before and after, a subscription to some kinds within some binding has in hand exactly its share of what was published since, while it is registered and connected, and a prefix of it otherwise |
| `EventHubs.ShareIsExactly` | src/events.rs:128-142 | a share is the lines of exactly the publications whose kind is in the set and whose host and session the binding admits, in order |
| `EventHubs.UnfilteredShare` | src/events.rs:128-142 | the share of a subscription without kinds and without binding is every line |
| `EventHubs.WantedIsShare` | src/events.rs:128-142 | what the hub takes a subscriber to want of a stream is its share |
| `EventHubs.NeverAGap` | src/events.rs:119-142 | whatever became of it, a subscriber has heard a prefix of its share and never a stream with a gap |
| `EventHubs.CutOffExactlyWhenFullOrGone` | src/events.rs:126-142 | a publish unregisters a subscriber if and only if the event is of its kinds and within its binding and its receiver is gone or its queue is full, and the cut is at that event |
| `EventHubs.BoundSubscribersHearOnlyTheirSessions` | src/events.rs:119-142 | what a placed worker has received and has queued is what it would have, had no event outside its binding - above all, none that belongs to no session - ever been published |
| `EventHubs.OutsideIsUnheard` | src/events.rs:136-140 | deleting every event outside its binding from a stream changes nothing of what a subscriber wants of it |
| `EventHubs.StepKeepsInv` | src/events.rs:90-143 | subscribing, publishing, receiving and disconnecting keep every subscription's stream gap-free |
| `EventHubs.RetainedIs` | src/events.rs:128-142 | `retain` keeps exactly the subscribers that took the event or did not want it |
| `EventHubs.PublishRegisters` | src/events.rs:128-142 | a publish decides about each subscriber from its own filter and its own queue only |
| `EventHubs.RetainSent` | src/events.rs:128-142 | one pass over the list: an event of other kinds or outside the binding leaves a subscriber and its channel alone, any other is queued or ends the registration, and no other channel is touched |
| `EventHubs.EventHub.SubscribeBound` | src/events.rs:97-109 | a new subscription is registered with the kinds and binding asked for, starts empty, and the promise holds for it from now on |
| `EventHubs.EventHub.PublishScoped` | src/events.rs:122-143 | the hub's lists and queues after a publish are those of the step the delivery promise is stated over |
| `EventHubs.EventHub.Receive` | src/events.rs:97-109 | taking a line out gives the oldest one queued and counts as heard |
| `AgentStates.PromptsAreBusy` | plugins/opencode/rozi-agent-state.js:165-189 | in every reachable state each session with an open prompt is recorded busy, and no prompt table is empty |
| `AgentStates.AnswerResumes` | plugins/opencode/rozi-agent-state.js:171-189 | the event that answers a session's last prompt leaves it working, or blocked by the error it had |
| `AgentStates.LastAnswerNeverIdles` | plugins/opencode/rozi-agent-state.js:171-189 | in no run does the answer to a session's last prompt leave it idle |
| `AgentStates.PromptBlocksUntilAnswered` | plugins/opencode/rozi-agent-state.js:181-207 | no event but its own answer or its session's deletion closes a prompt, and its session stays blocked until then |
| `AgentStates.SessionsDoNotInterfere` | plugins/opencode/rozi-agent-state.js:279-314 | an event of one session never changes the status of another |
| `AgentStates.SessionIsItsOwnEvents` | plugins/opencode/rozi-agent-state.js:165-314 | after any run, what is held about a session - open prompts, busy, errored - is what a single-session machine makes of that session's own events |
| `AgentStates.StatusOfOwnEvents` | plugins/opencode/rozi-agent-state.js:196-207 | a session's status and reason are those of that single-session machine |
| `AgentStates.ResolveCloses` | plugins/opencode/rozi-agent-state.js:181-189 | an answer closes the prompt it answers and no other |
| `AgentStates.NamelessIsIgnored` | plugins/opencode/rozi-agent-state.js:165-189 | an event without a session, and a prompt or an answer without an id, changes no session |
| `AgentStates.AggregateIsSeverest` | plugins/opencode/rozi-agent-state.js:209-225 | the row is blocked iff some session is, else working iff some session is, and a blocked row is some session's own |
| `AgentStates.StatusIgnoresOrder` | plugins/opencode/rozi-agent-state.js:209-225 | the published status does not depend on the order in which sessions were first seen |
| `AgentStates.ReasonFollowsOrder` | plugins/opencode/rozi-agent-state.js:197-224 | in a run: for any two sessions, the same two events in either order leave the same prompts open and publish different reasons |
| `AgentStates.RowFollowsOrderExactly` | plugins/opencode/rozi-agent-state.js:197-225 | the published row depends on the order in which sessions were prompted if and only if one is asked for permission while another is only asked for an answer |
| `AgentStates.FirstPromptSpeaks` | plugins/opencode/rozi-agent-state.js:212-222 | the session prompted longest ago speaks for the pane |
| `AgentStates.RememberedIsCurrent` | plugins/opencode/rozi-agent-state.js:230-237 | in every reachable state what is remembered as published is what the sessions aggregate to |
| `AgentStates.ReduceRemembers` | plugins/opencode/rozi-agent-state.js:230-237 | after a lifecycle event the aggregate is what is remembered, and it is offered exactly when it differs from what was |
| `AgentStates.ApplyKeepsInv` | plugins/opencode/rozi-agent-state.js:165-272 | every operation keeps prompts busy and tables non-empty |
| `AgentStates.AgentState.AddRequest` | plugins/opencode/rozi-agent-state.js:165-179 | the nested tables are updated as specified; true exactly when the prompt was new |
| `AgentStates.AgentState.ResolveRequest` | plugins/opencode/rozi-agent-state.js:181-189 | emptied tables go with the last prompt; true exactly when that prompt was open |
| `AgentStates.AgentState.AggregateRow` | plugins/opencode/rozi-agent-state.js:212-225 | the early-exit scan computes the aggregate |
| `AgentStates.AgentState.SetSessionBusy` | plugins/opencode/rozi-agent-state.js:239-248 | status events are ignored while a prompt is open, and otherwise clear an error |
| `AgentStates.ReduceAgentEvent` | plugins/opencode/rozi-agent-state.js:279-314 | dispatching on the event type changes the state and answers as the reducer's specification does |
| `AgentPublishers.QuiescentPaneIsRight` | plugins/opencode/rozi-agent-state.js:40-146 | whenever no publish call is unfinished, either an open stream's last row is the current aggregate of all sessions, or there is no stream and nothing is remembered as published |
| `AgentPublishers.NothingRememberedRepublishes` | plugins/opencode/rozi-agent-state.js:136-140 | with nothing remembered, the next lifecycle event offers the current aggregate again |
| `AgentPublishers.EventPublishesChange` | plugins/opencode/rozi-agent-state.js:136-140 | a lifecycle event publishes the aggregate if and only if it is not the one remembered, and otherwise leaves the stream alone |
| `AgentPublishers.StartShowsIdle` | plugins/opencode/rozi-agent-state.js:129-133 | the hooks exist only after the first publish came back: accepted it leaves the idle row shown and remembered, refused it leaves neither |
| `AgentPublishers.OneEventRecovers` | plugins/opencode/rozi-agent-state.js:40-117 | after any history of failures, one lifecycle event and one acknowledgement bring the pane's row up to date |
| `AgentPublishers.EveryRowIsCurrent` | plugins/opencode/rozi-agent-state.js:44-46 | a row is only ever written to the current, acknowledged connection, and is the aggregate at that moment |
| `AgentPublishers.PromisesSettleOnce` | plugins/opencode/rozi-agent-state.js:62-117 | each connection's promise is resolved at most once and can always be resolved by its timeout; `onLost` fires at most once, and only after a successful acknowledgement |
| `AgentPublishers.DisposalCloses` | plugins/opencode/rozi-agent-state.js:49-54 | in every run a disposal closes the publisher and ends its stream, holds no session any more and remembers nothing |
| `AgentPublishers.DisposedStaysSilent` | plugins/opencode/rozi-agent-state.js:49-54 | after any run, a disposal and whatever comes later, no connection is opened, no row is added, no loss is reported, and every stream is ended or was withdrawn |
| `AgentPublishers.RunKeeps` | plugins/opencode/rozi-agent-state.js:40-146 | every schedule of events, replies, timeouts, drops and microtasks keeps the stream, the waiting calls and the remembered row consistent |
| `AgentPublishers.DropKeeps` | plugins/opencode/rozi-agent-state.js:74-85 | a drop reports a loss exactly when it closes the current open stream, and settles an unacknowledged promise as failed |
| `AgentPublishers.PendingWaiters` | plugins/opencode/rozi-agent-state.js:40-47 | with no microtask left, every unfinished call waits on a connection not yet acknowledged |
| `AgentPublishers.AgentPublisher.BeginPublish` | plugins/opencode/rozi-agent-state.js:40-44 | a call joins the pending connection if there is one and opens one otherwise |
| `AgentPublishers.AgentPublisher.OnDrop` | plugins/opencode/rozi-agent-state.js:74-85 | the drop callback takes the specified transition |
| `AgentPublishers.AgentPublisher.OnData` | plugins/opencode/rozi-agent-state.js:94-113 | the data callback takes the specified transition, and only for the first complete line |
| `AgentPublishers.AgentStateHooks.constructor` | plugins/opencode/rozi-agent-state.js:129-133 | creating the hooks starts the machine the run theorems are about |
| `AgentPublishers.AgentStateHooks.OnEvent` | plugins/opencode/rozi-agent-state.js:136-140 | a lifecycle event takes the machine's step and keeps it consistent |
| `AgentPublishers.AgentStateHooks.ResumePublish` | plugins/opencode/rozi-agent-state.js:44-46 | so does resuming after the stream's promise |
| `AgentPublishers.AgentStateHooks.FinishPublish` | plugins/opencode/rozi-agent-state.js:133-139 | so does finishing a publish call, forgetting what did not get through |
| `AgentPublishers.AgentStateHooks.OnReply` | plugins/opencode/rozi-agent-state.js:94-113 | so does a reply |
| `AgentPublishers.AgentStateHooks.OnGone` | plugins/opencode/rozi-agent-state.js:74-89 | so does a drop or a timeout, forgetting what was on a lost stream |
| `AgentPublishers.AgentStateHooks.OnDispose` | plugins/opencode/rozi-agent-state.js:141-144 | so does disposal, after which the publisher is closed, its stream ended, and the state as at the start |
| `ExtensionStores.Store.ReplaceRecord` | src/extension_installation.rs:1168-1208 | under every schedule a failure leaves the old record at its path or its `.old` path; one fault at most puts everything back; success leaves the new record |
| `ExtensionStores.Store.ReplaceGitInstallation` | src/extension_installation.rs:1126-1166 | under every schedule a failure leaves the old checkout at the destination or the backup and the old record at its path or its `.old` path; with at most one fault checkout and record are both new or both old; nothing else is touched |
| `ExtensionStores.Store.SwapCheckout` | src/extension_installation.rs:1134-1154 | the old checkout is never lost while the new one moves in |
| `ExtensionStores.SwapUndone` | src/extension_installation.rs:1134-1163 | dropping the new checkout and moving the old one back leaves only the staging directory gone |
| `ExtensionStores.Store.CompleteInstall` | src/extension_installation.rs:627-658 | an error leaves the disabled list alone and, unless a second step fails, takes the new destination and record away again |
| `ExtensionStores.Store.FinishManagedInstall` | src/extension_installation.rs:590-625 | without a fault it succeeds if and only if the staged extension is installable and its id is valid and free; success adds one destination with its matching record; with at most one fault an error changes nothing but staging |
| `ExtensionStores.Store.InstallLink` | src/extension_installation.rs:559-588 | as for a managed install when the source path is UTF-8; when it is not, the link is left behind without a record; without a fault it succeeds if and only if the id is valid, declared and free and the path UTF-8 |
| `ExtensionStores.ResolveSource` | src/extension_installation.rs:660-723 | a directory it accepts has a UTF-8 path, so the link path's late check cannot fail |
| `ExtensionStores.PlanHonours` | src/extension_installation.rs:158-202 | there is something to install if and only if the request names it and it is installable: a copy of its directory, a link to it, or the clone at the revision recorded - for a catalog entry the commit it lists |
| `ExtensionStores.Store.Install` | src/extension_installation.rs:158-202 | without a fault it succeeds if and only if the source resolves, the revision and commit agree, and the id is valid and free; success adds exactly what the request names, a catalog entry only at its listed commit, with its record and an id that is not disabled and that no installation declared before; with at most one fault an error leaves destinations, records and the disabled list as they were; an id whose record is left over is refused |
| `ExtensionStores.Store.Update` | src/extension_installation.rs:268-334 | under every schedule it succeeds only over a clean Git checkout at the revision its own current-schema record names, when the remote still offers the id; without a fault it then does; it changes anything iff another revision is offered, and the new record names the old remote and that revision; a checkout with local changes, or at another revision than recorded, leaves every file as it was; a failed update keeps the old checkout and the old record somewhere; with at most one fault an error changes nothing but staging |
| `ExtensionStores.Store.Remove` | src/extension_installation.rs:422-468 | without a fault it succeeds if and only if the id is valid and exactly one installation declares it; under every schedule what is removed is the only installation that declared the id; an error changes nothing; success without a warning removes its record and disabled entry too |
| `ExtensionStores.Store.ForgetRemoved` | src/extension_installation.rs:470-482 | the record goes before the disabled entry, and success means both are gone |
| `ExtensionStores.Store.RejectDestinationConflict` | src/extension_installation.rs:800-820 | a destination or a record in the way refuses the install, and nothing else does but a bad id or a fault |
| `ExtensionStores.Store.ReadRecord` | src/extension_installation.rs:1079-1124 | without a fault the record is what its file says: absent, the current-schema record of the very id asked for, or an error |
| `ExtensionStores.Store.RequireCleanGit` | src/extension_installation.rs:268-286 | under every schedule what is accepted is an unmodified checkout at the revision its current-schema Git record names, with that remote; without a fault every such checkout is |
| `ExtensionStores.Store.StagingPath` | src/extension_installation.rs:822-838 | a name nothing has, and none only after a fault or a hundred taken names |
| `ExtensionStores.Store.UniquePath` | src/extension_installation.rs:1210-1222 | a name nothing has, and none only after a hundred taken names |
| `ExtensionStores.Perform` | src/extension_installation.rs:158-482 | an operation in which no step fails takes the store to exactly the state its simple description says |
| `ExtensionStores.AfterKeepsSound` | src/extension_installation.rs:158-482 | that keeps every id recorded iff installed, each Git record at its checkout's revision, and every other id untouched |
| `ExtensionStores.AfterAllIsSound` | src/extension_installation.rs:158-482 | from an empty store every sequence of operations ends in such a store, with no staging or temporary file left |
| `ExtensionStores.RemoveUndoesInstall` | src/extension_installation.rs:158-468 | removing an extension after installing it gives the store back, with its id still enabled |
| `ExtensionStores.RemovedIsAtDestination` | src/extension_installation.rs:427-446 | in such a store the one installation that declares an id is at its destination |
| `ExtensionStores.Run` | src/extension_installation.rs:158-482 | from an empty store a run in which no step fails does what its operations say, one after the other, and ends in such a store |
| `ExtensionStores.AddedIsSound` | src/extension_installation.rs:590-658 | one more installation with its matching record keeps such a store |
| `ExtensionStores.Without` | src/extension_installation.rs:640-645 | exactly the entries that do not trim to the id remain |
| `ExtensionStores.ValidIdIsOneName` | src/config/extensions/validation.rs:38-52 | a valid id is a single path component that names neither the store, its parent nor its control directory, and it is the very entry that disables it |
| `ExtensionStores.TrimTakesSpace` | src/extension_installation.rs:640-645 | trimming an entry drops exactly the space at both of its ends |
| `ExtensionStores.DeclaredAlone` | src/extension_installation.rs:427-446 | an id is claimed once if and only if one installation declares it and no other does |
| `HostPaths.ParsePath` | src/profiles.rs:306-347 | the push and pop loop computes the parse that the laws below are about |
| `HostPaths.RootsParse` | src/profiles.rs:315-331 | `/`, a drive, and a UNC server with its share, whichever slashes spell it, are roots with no component |
| `HostPaths.UnrootedIsNone` | src/profiles.rs:321-331 | an empty or relative path, and a Windows path rooted at the current drive or directory, has no parse |
| `HostPaths.NoShareIsNone` | src/profiles.rs:315-320 | nor has a UNC path without a server or a share |
| `HostPaths.ParentOf` | src/profiles.rs:332-341 | `..` takes the last component away, and above the root there is no parse |
| `HostPaths.Descends` | src/profiles.rs:332-341 | an ordinary component is one level further down, if and only if the path above is not the bare `/`, below which a second slash begins a UNC path |
| `HostPaths.DownAndUp` | src/profiles.rs:332-341 | down into a directory and up again is the path itself, if and only if it is not the bare `/` |
| `HostPaths.StaysPut` | src/profiles.rs:332-341 | a trailing separator and a `.` change nothing, if and only if the path is not the bare `/` |
| `HostPaths.ClimbedStaysOut` | src/profiles.rs:303-341 | a path that has climbed above its root has no parse whatever follows |
| `HostPaths.ParsedParts` | src/profiles.rs:332-341 | no component is empty, `.`, `..`, or holds a separator of its family |
| `HostPaths.PrintedParsesBack` | src/profiles.rs:389-407 | the printed path re-parses to the target's root and components followed by exactly the printed ones, if and only if `Carries` holds |
| `HostPaths.RebasedLandsBelowTarget` | src/profiles.rs:372-407 | a rebased directory lands below the target by exactly its components below its innermost checkout, if and only if `Carries` holds, and is then contained in the target |
| `HostPaths.SameFamilyCarries` | src/profiles.rs:389-407 | directories of the target's own family always carry, on Unix when neither path holds a backslash |
| `HostPaths.InnermostIsDeepest` | src/profiles.rs:372-385 | the answer is the suffix below the deepest listed non-root checkout that contains the directory, and there is none iff no such checkout does |
| `HostPaths.InnermostIgnoresOrder` | src/profiles.rs:372-385 | reordering or repeating the checkouts changes nothing |
| `HostPaths.RebasingIsIdempotent` | src/profiles.rs:372-407 | rebasing into a listed non-root checkout with none nested inside it, twice, is rebasing once |
| `HostPaths.StepsOutside` | src/profiles.rs:372-407 | a directory in a checkout lies inside it, and one beside it, spelled through the checkout and `..`, is not rebased |
| `HostPaths.ContainsTransitive` | src/profiles.rs:350-367 | containment of parsed paths is transitive, although case is ignored as soon as one side is a Windows path |
| `HostPaths.ContainsIsPrefix` | src/profiles.rs:350-367 | one path contains another if and only if both are of one family and root and its components are a prefix of the other's, on Windows but for ASCII case |
| `HostPaths.FoldsCase` | src/profiles.rs:352-358 | comparing without case identifies an ASCII letter with its other case and nothing else |
| `HostPaths.ContainsReflexive` | src/profiles.rs:350-367 | every path contains itself |
| `HostPaths.TrailingBackslashIsLost` | src/profiles.rs:389-407 | whatever is rebased into the Unix directory `/t\` lands in `/t` |
| `HostPaths.BackslashBecomesRoot` | src/profiles.rs:389-407 | rebased below `/`, a component that begins with a backslash and the one after it become the root of a UNC path |
| `HostPaths.BackslashSeparates` | src/profiles.rs:389-407 | rebased below a Windows directory, a Unix component that holds a backslash becomes two |
| `HostPaths.RebaseHostPath` | src/profiles.rs:389-407 | growing one string gives the text that `RebasedText` and `RebasedLandsBelowTarget` are about |
| `HostPaths.RebasedText` | src/profiles.rs:389-407 | the target without its trailing separators, then each component behind a backslash when the target has backslashes only, and behind a slash otherwise |
| `Layouts.ReplacementIsSound` | src/profiles.rs:585-620 | for a first id above 1, pane ids are distinct and at least it, the next id is above them all, every focus names a pane of its own workspace and the active one's is the attachment's, if and only if some in-range workspace has a pane and no in-range id saturates |
| `Layouts.ReplacementPlacesPanes` | src/profiles.rs:602-619 | whenever anything is restored, every workspace has exactly its own panes, in order, each numbered by its place in the whole profile |
| `Layouts.FocusFollowsProfile` | src/profiles.rs:492-543 | the pane a profile names as focused is the one focused, under whatever id it got |
| `Layouts.ReplacementFocuses` | src/profiles.rs:540-543 | in the replaced layout each workspace's focus is the pane the last profile for it names, under the number of its place in the whole profile |
| `Layouts.FocusFallsBack` | src/profiles.rs:540-543 | a workspace whose profile names no pane of its own gets its first pane focused |
| `Layouts.ActiveFollowsProfile` | src/profiles.rs:563-583 | the active workspace is the profile's when there is one of that number, the first otherwise, and its focus is the attachment's |
| `Layouts.FreshProfilePlacesPanes` | src/profiles.rs:492-497 | a profile saved without ids gets every pane into its workspace, in order, numbered from 1 across the workspaces in range |
| `Layouts.ChosenIdsAreKept` | src/profiles.rs:492-497 | without a first id above 1 every pane keeps the id chosen for it |
| `Layouts.RestoreAllPlaces` | src/profiles.rs:474-561 | restoring appends each workspace profile's panes to its own workspace and no other |
| `Layouts.EmptyProfileGetsOnePane` | src/profiles.rs:586-601 | an empty profile gets one pane, focused in the first workspace under the id asked for, and soundly so if and only if that id is below the maximum |
| `Layouts.RestoreAllKeeps` | src/profiles.rs:474-561 | restoring workspaces one by one, skipping and repeating indices, keeps ids distinct, the next id above them and every focus in its workspace |
| `Layouts.RestoreAllGrows` | src/profiles.rs:474-561 | restored panes are never dropped, and numbering that does not fit puts a pane at the maximum id |
| `Layouts.ReplacedIs` | src/profiles.rs:602-619 | which profiles are restored and which fall back to the default attachment |
| `Layouts.NumberPanesIs` | src/profiles.rs:602-609 | ids are consecutive and saturate at the 32-bit maximum |
| `Layouts.AttachmentFromProfile` | src/profiles.rs:453-583 | the nested loops compute the specified workspaces, focus and next id, or none |
| `Layouts.ReplaceLayoutFromProfile` | src/profiles.rs:585-620 | renumbering, restoring and falling back compute the replacement the results above are about, with a next id never below the first one asked for |
| `ControlFraming.ReadAll` | src/control.rs:2749-2777 | for every division of a stream into non-empty chunks, the lines and the first error are those of splitting the flat stream at newlines; each line is text within the limit, and with its own ending - a newline, a carriage return and a newline, or none after an unterminated last line - is found again in the stream, up to its end or the line that is refused |
| `ControlFraming.ReadLinesReadsAs` | src/control.rs:2758-2817 | reading line by line loses nothing of the stream but how each line ended, leaves no carriage return that stood before its newline, and stops at the end or at a line over the limit or not text |
| `ControlFraming.ReadsOneWay` | src/control.rs:2758-2817 | and that leaves only one possible answer for each stream |
| `ControlFraming.ReadOneOpens` | src/control.rs:2758-2777 | the line that is taken opens the stream, with the ending that was dropped, and is refused exactly when it is over the limit with that ending or else not text |
| `ControlFraming.ReadLinesIsSplit` | src/control.rs:2758-2817 | taking one line at a time and splitting all at once agree on every line and on the first error |
| `ControlFraming.OversizedExactly` | src/control.rs:2803-2808 | a stream is refused for size if and only if some line, counting its newline, exceeds the limit and every line before it is within it and text |
| `ControlFraming.AppendUntilNewline` | src/control.rs:2779-2801 | the first line however the stream is divided, refused iff it exceeds the limit, with never more than the limit buffered |
| `ControlFraming.PiecesJoin` | src/control.rs:2758-2817 | the reference split loses nothing: its pieces joined by newlines are the stream |
| `ControlFraming.PiecesTakeLine` | src/control.rs:2779-2801 | the first piece of the split is the first line without its newline |
| `ControlFraming.ReadDelimitedLine` | src/control.rs:2758-2777 | one line of the flat stream, and exactly the rest left to read; after an oversized line the reader stands inside it, no further than the limit |
| `ControlFraming.ReadControlLine` | src/control.rs:2744-2751 | a line from a client is refused for size if and only if it is longer than 1 MiB with its newline |
| `ControlFraming.ReadControlReplyLine` | src/control.rs:2754-2756 | a line Rozi wrote is never refused for size |
| `ControlFraming.TrimTrailingNewline` | src/control.rs:2810-2817 | what is dropped is a carriage return and a newline when the byte before the newline is a carriage return, and the newline alone otherwise |
| `FrameMatching.GreedyCursorIsExact` | tools/graphics-benchmark.py:153-188 | with writes cycling through the pool and no gap that re-anchors, the cursor recovers the true write of every upload if and only if fewer writes than the pool are skipped before each |
| `FrameMatching.RecoveryIsExact` | tools/graphics-benchmark.py:153-188 | whatever the gaps, it does if and only if every upload after a gap that re-anchors presented the newest write of its fixture and fewer writes than the pool are skipped before each of the others |
| `FrameMatching.AmbiguousExactly` | tools/graphics-benchmark.py:180-187 | without re-anchoring a matching is reported as ambiguous if and only if some skip is one short of a whole number of pools |
| `FrameMatching.WrongUnflaggedExactly` | tools/graphics-benchmark.py:156-187 | a wrong recovery is reported as unambiguous if and only if some skip reaches the pool and none is one short of a whole number of pools |
| `FrameMatching.ReportsVisibleSkips` | tools/graphics-benchmark.py:165-183 | without re-anchoring every upload is matched, to a write a whole number of pools before the true one, and the longest skip reported is the longest modulo the pool |
| `FrameMatching.MatchesAreConsistent` | tools/graphics-benchmark.py:165-183 | for every input matched writes strictly increase, each has its upload's fixture and is from before its frame's end, every other upload is counted unmatched, and the latencies are those of the matched uploads in the sample, none of them negative |
| `FrameMatching.ExactRecoveryReportsItsSkips` | tools/graphics-benchmark.py:180-187 | an exact recovery reports the true longest skip |
| `FrameMatching.RecoveryCounts` | tools/graphics-benchmark.py:165-187 | whatever the gaps, an exact recovery reports nothing unmatched, as many re-anchorings as there are gaps longer than a cycle, and the longest skip outside of those gaps |
| `FrameMatching.CycleOfEvenWrites` | tools/graphics-benchmark.py:163-163 | a pool cycle of writes at a fixed interval is the pool's size times that interval |
| `FrameMatching.WholePoolSkipGoesUnreported` | tools/graphics-benchmark.py:156-162 | an input that skips a whole pool and is reported as an unambiguous recovery without a skip |
| `FrameMatching.NextIsAhead` | tools/graphics-benchmark.py:175-176 | the next write of a fixture lies as far ahead of the cursor as the true one does, modulo the pool |
| `FrameMatching.OnMarkIsTrue` | tools/graphics-benchmark.py:165-183 | one upload is matched to its true write exactly when, after a gap that re-anchors, that is the newest of its fixture, and otherwise the cursor is less than a pool behind it |
| `FrameMatching.OnMarkTrails` | tools/graphics-benchmark.py:165-183 | without re-anchoring one upload moves the cursor past the write that lies ahead by its skip modulo the pool |
| `FrameMatching.BisectIsFirst` | tools/graphics-benchmark.py:166-167 | bisection of a sorted list finds its first element that is not smaller |
| `FrameMatching.LatencySummary` | tools/graphics-benchmark.py:153-188 | the summary is the report of the specified matching |
| `FrameMatching.MatchMarks` | tools/graphics-benchmark.py:164-183 | the loop computes the specified matching |
| `WireRecords.RecordsReadBack` | tools/graphics-benchmark.py:70-80 | what the interposer writes the benchmark reads back, if and only if every write is shorter than 4 GiB |
| `WireRecords.CutIsNoticed` | tools/graphics-benchmark.py:72-80 | a record file cut anywhere gives back exactly the records before the cut, and the cut is reported unless it falls between records |
| `WireRecords.ReadRecords` | tools/graphics-benchmark.py:70-80 | one offset walking the file parses it |
| `WireRecords.MatchesAreAll` | tools/graphics-benchmark.py:149-150 | skipping past each frame terminator misses none, because terminators cannot overlap |
| `WireRecords.BisectionCarries` | tools/graphics-benchmark.py:146-149 | bisecting the running lengths finds the write that carried a byte, and never falls off the end |
| `WireRecords.UploadsGetTheirFrameEnd` | tools/graphics-benchmark.py:142-167 | on a monotone clock frame ends come out sorted, so every upload gets the earliest frame end not before it, and none only if there is none |
| `WireRecords.ReadFrameEnds` | tools/graphics-benchmark.py:142-150 | the time of the write that carried the last byte of each frame terminator |
| `WireRecords.HeaderOf` | tools/graphics-wiretap.c:165-173 | a written record starts with its timestamp and the low 32 bits of its length |
| `PathDecoding.DecodesExactlyTheFittingPaths` | tools/graphics-wiretap.c:106-122 | decoding the base64 of section 4 of RFC 4648 gives back the bytes if and only if there is at least one and fewer than PATH_MAX |
| `PathDecoding.DecodeEncoded` | tools/graphics-wiretap.c:110-119 | the 32-bit accumulator returns the original bytes whatever earlier bits it still holds |
| `PathDecoding.LowBits` | tools/graphics-wiretap.c:113-113 | pushing six bits keeps the low twelve exact although the accumulator wraps |
| `PathDecoding.StopsAtPad` | tools/graphics-wiretap.c:110-110 | decoding stops at a `=`, whatever follows it |
| `PathDecoding.RefusesOtherBytes` | tools/graphics-wiretap.c:111-112 | a byte before the padding that is no symbol makes the path unreadable |
| `PathDecoding.DecodePath` | tools/graphics-wiretap.c:106-122 | the loop fills the caller's buffer with the decoded path and its terminator, and reports success exactly then |
| `Wiretap.RecordsExactlyTheWholeUploads` | tools/graphics-wiretap.c:136-223 | for every way a write is scattered and cut short, mark ends strictly increase and the uploads recorded are those wholly inside the bytes written |
| `Wiretap.UploadIsMarked` | tools/graphics-wiretap.c:136-161 | an upload of a file on disk, after bytes without an escape, gives a mark that ends where the upload does and holds the file's first four bytes, followed by what scanning the rest finds |
| `Wiretap.ScanUpload` | tools/graphics-wiretap.c:136-161 | so it does for every payload, with what was learned of that payload, and scanning goes on right behind it |
| `Wiretap.SampleReads` | tools/graphics-wiretap.c:148-157 | an upload names the file whose path is its payload up to a zero byte, and counts as read if and only if that file has four bytes |
| `Wiretap.WriteV` | tools/graphics-wiretap.c:201-223 | the media record is what scanning just the written bytes would find, up to the array's size, and the wire record is those bytes |
| `Wiretap.ScanWritten` | tools/graphics-wiretap.c:136-161 | scanning the written part finds exactly the whole list's uploads that end within it |
| `Wiretap.ScanPrefix` | tools/graphics-wiretap.c:136-161 | scanning a prefix finds exactly the uploads whole within it: one cut off by its end is not found, and neither is anything it would have hidden |
| `Wiretap.ScanIncreases` | tools/graphics-wiretap.c:136-161 | ends of the uploads of one buffer strictly increase and lie inside it |
| `Wiretap.SegmentsIncrease` | tools/graphics-wiretap.c:206-209 | and so do those of a list of segments |
| `Wiretap.TakeWithin` | tools/graphics-wiretap.c:175-186 | limiting the marks to the array and dropping the unwritten ones commute |
| `Wiretap.WithinIsFront` | tools/graphics-wiretap.c:179-179 | the wholly written marks are those before the first that is not, so stopping early loses none |
| `Wiretap.RecordMarks` | tools/graphics-wiretap.c:175-186 | the early-exit loop records exactly the marks that were wholly written |
| `Wiretap.ScanMarks` | tools/graphics-wiretap.c:136-161 | the uploads of a buffer are appended to the caller's array while it has room |
| `Wiretap.ScanAll` | tools/graphics-wiretap.c:206-209 | every segment's uploads at its offset, the first 64 of them |
| `Wiretap.RecordWire` | tools/graphics-wiretap.c:213-217 | each segment's share of the bytes written |
| `Wiretap.WrittenIsPrefix` | tools/graphics-wiretap.c:213-217 | the shares together are the bytes written |
| `Wiretap.NamesAFile` | tools/graphics-wiretap.c:125-134 | true if and only if some whole key, not merely a substring, is a file medium |
| `FrameRetention.SendAll` | tools/graphics-patches.py:33-54 | over every run of sends retained bytes equal the pending lengths and stay within the budget, unlinking is first in, first out, and no file goes before its grace period is over |
| `FrameRetention.FrameFiles.Send` | tools/graphics-patches.py:33-54 | a transfer within the budget is always accepted after finitely many steps, keeps all of that, does not wait when it fits, and leaves no file whose grace period was over before; one over the budget changes nothing |
| `FrameRetention.FrameFiles.UnlinkOldest` | tools/graphics-patches.py:45-47 | only the oldest file goes, and its bytes with it |
| `FrameRetention.FrameFiles.Append` | tools/graphics-patches.py:48-54 | the new file's name is unused |
| `FrameRetention.FrameFiles.Drain` | tools/graphics-patches.py:56-58 | afterwards every retained file has had its grace period |

## Left out

- Git, TOML, UTF-8 decoding and manifest scanning: a checkout is the id its manifest declares, its revision and whether it is clean; other results are given.
- Partial effects of a failed filesystem step: a removal that deletes half a directory, a copy that fails halfway other than into staging, and a real rename that replaces an existing file are not modelled.
- Crashes between filesystem steps, other processes changing the store, and the wrap-around of the staging counter.
- Other spaces than ASCII ones: trimming a disabled entry drops spaces, tabs and line ends only.
- Update checks, listing of Git installations, purging of state, and the store-revision bump beyond its being a step that may fail with only a warning.
- ExtensionStores.Store.Update: an update that succeeds while a step fails may leave the old checkout or record behind in staging or at its `.old` path.
- ExtensionStores.Store.Remove: when removing the record fails, the installation is gone and its record stays, which is what later refuses an install of that id.
- Plugin environment variables, the request's contents, JSON, and connection attempts that throw; a chunk of a reply is one step that has or has not completed a line.
- Order among JavaScript microtasks: any order is allowed, which is more than an engine does.
- Hooks, the scope computed for an event, and whether an event is wanted at all.
- Memory orderings of the job counter, job naming and the operating system's thread creation.
- Names, geometry, launch commands, flags and tile trees of restored panes, and which ids are free when a profile chooses some of its pane ids and not others.
- Non-ASCII case rules and byte-level positions in host paths: paths are sequences of characters and case folding is ASCII, as in the source.
- Read errors of a control stream.
- Percentiles, stalls, echo and visibility reports of the benchmark; times are integers and latencies reals.
- Which skips are reported when a gap re-anchors and the recovery is not exact.
- Short writes to the record files and failures to open them; `write` is `writev` with one segment.
- WireRecords.ReadFrameEnds: a truncated file gives no frame ends, as the exception does, and not those before the cut.
- Frame files deleted by the consumer, the transmitted escape sequence and failures to write a file.
