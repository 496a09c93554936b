/** Restoring a layout from a profile (src/profiles.rs): panes get fresh ids, and every workspace's
    focus must name one of its own panes. Tile trees are not part of this model. */
module Layouts {
  import opened Wrappers

  const WORKSPACE_COUNT: nat := 9

  /** Pane ids are 32 bits wide. */
  const PANE_ID_MAX: nat := 0xFFFF_FFFF

  type PaneId = x: int | 0 <= x <= PANE_ID_MAX

  /** A saved pane: its id within the profile, and the id it is to have if one was chosen. */
  datatype PaneProfile = PaneProfile(id: PaneId, paneId: Option<PaneId>)

  datatype WorkspaceProfile = WorkspaceProfile(index: nat, panes: seq<PaneProfile>, focused: Option<PaneId>)

  datatype Profile = Profile(workspaces: seq<WorkspaceProfile>, activeWorkspace: nat)

  datatype Workspace = Workspace(panes: seq<PaneId>, focused: Option<PaneId>)

  datatype Attachment = Attachment(
    workspaces: seq<Workspace>,
    activeWorkspace: nat,
    focused: Option<PaneId>,
    nextPaneId: PaneId)

  function SaturatingNext(id: PaneId): PaneId {
    if id == PANE_ID_MAX then id else id + 1
  }

  function Max(a: PaneId, b: PaneId): PaneId {
    if a < b then b else a
  }

  predicate NoPanes(workspaces: seq<WorkspaceProfile>) {
    forall w | w in workspaces :: w.panes == []
  }

  const EmptyWorkspace := Workspace([], None)

  const EmptyWorkspaces: seq<Workspace> :=
    [EmptyWorkspace, EmptyWorkspace, EmptyWorkspace, EmptyWorkspace, EmptyWorkspace,
     EmptyWorkspace, EmptyWorkspace, EmptyWorkspace, EmptyWorkspace]

  /** `fresh_default_attachment`: one pane, numbered 1. */
  const DefaultAttachment := Attachment(EmptyWorkspaces[0 := Workspace([1], Some(1))], 0, Some(1), 2)

  // ---------------------------------------------------------------- restoring

  /** The panes of one workspace, with the map from profile ids and the next free id. */
  datatype Panes = Panes(ids: seq<PaneId>, byProfile: map<PaneId, PaneId>, next: PaneId)

  function AddPane(p: Panes, pane: PaneProfile): Panes {
    var id := if pane.paneId.Some? then pane.paneId.value else p.next;
    Panes(p.ids + [id], p.byProfile[pane.id := id], Max(p.next, SaturatingNext(id)))
  }

  function AddPanes(p: Panes, todo: seq<PaneProfile>): Panes
    decreases |todo|
  {
    if todo == [] then p else AddPanes(AddPane(p, todo[0]), todo[1..])
  }

  function Focus(p: Panes, focused: Option<PaneId>): Option<PaneId> {
    if focused.Some? && focused.value in p.byProfile then Some(p.byProfile[focused.value])
    else if p.ids != [] then Some(p.ids[0]) else None
  }

  /** One workspace profile put into its workspace. One out of range is skipped. */
  function RestoreOne(workspaces: seq<Workspace>, next: PaneId, w: WorkspaceProfile): (seq<Workspace>, PaneId)
    requires |workspaces| == WORKSPACE_COUNT
  {
    if w.index >= WORKSPACE_COUNT then (workspaces, next)
    else
      var p := AddPanes(Panes(workspaces[w.index].panes, map[], next), w.panes);
      (workspaces[w.index := Workspace(p.ids, Focus(p, w.focused))], p.next)
  }

  function RestoreAll(workspaces: seq<Workspace>, next: PaneId, todo: seq<WorkspaceProfile>)
    : (r: (seq<Workspace>, PaneId))
    requires |workspaces| == WORKSPACE_COUNT
    ensures |r.0| == WORKSPACE_COUNT
    decreases |todo|
  {
    if todo == [] then (workspaces, next)
    else
      var (ws, n) := RestoreOne(workspaces, next, todo[0]);
      RestoreAll(ws, n, todo[1..])
  }

  predicate AllEmpty(workspaces: seq<Workspace>) {
    forall w | w in workspaces :: w.panes == []
  }

  function FromProfile(profile: Profile): Option<Attachment> {
    if NoPanes(profile.workspaces) then None
    else
      var (workspaces, next) := RestoreAll(EmptyWorkspaces, 1, profile.workspaces);
      var active := if profile.activeWorkspace < WORKSPACE_COUNT then profile.activeWorkspace else 0;
      if AllEmpty(workspaces) then None
      else Some(Attachment(workspaces, active, workspaces[active].focused, next))
  }

  /** `attachment_from_profile`. */
  method AttachmentFromProfile(profile: Profile) returns (attachment: Option<Attachment>)
    ensures attachment == FromProfile(profile)
  {
    if NoPanes(profile.workspaces) {
      return None;
    }
    var workspaces := EmptyWorkspaces;
    var next: PaneId := 1;
    for i := 0 to |profile.workspaces|
      invariant |workspaces| == WORKSPACE_COUNT
      invariant RestoreAll(EmptyWorkspaces, 1, profile.workspaces) ==
                RestoreAll(workspaces, next, profile.workspaces[i..])
    {
      var w := profile.workspaces[i];
      assert profile.workspaces[i..][1..] == profile.workspaces[i + 1..];
      if w.index >= WORKSPACE_COUNT {
        continue;
      }
      var ids: seq<PaneId> := workspaces[w.index].panes;
      var byProfile: map<PaneId, PaneId> := map[];
      ghost var start := Panes(ids, byProfile, next);
      for j := 0 to |w.panes|
        invariant AddPanes(start, w.panes) == AddPanes(Panes(ids, byProfile, next), w.panes[j..])
      {
        assert w.panes[j..][1..] == w.panes[j + 1..];
        var id := if w.panes[j].paneId.Some? then w.panes[j].paneId.value else next;
        next := Max(next, SaturatingNext(id));
        byProfile := byProfile[w.panes[j].id := id];
        ids := ids + [id];
      }
      var focused: Option<PaneId> := None;
      if w.focused.Some? && w.focused.value in byProfile {
        focused := Some(byProfile[w.focused.value]);
      } else if ids != [] {
        focused := Some(ids[0]);
      }
      workspaces := workspaces[w.index := Workspace(ids, focused)];
    }
    var active := if profile.activeWorkspace < WORKSPACE_COUNT then profile.activeWorkspace else 0;
    if AllEmpty(workspaces) {
      return None;
    }
    return Some(Attachment(workspaces, active, workspaces[active].focused, next));
  }

  // ---------------------------------------------------------------- renumbering

  function NumberPanes(panes: seq<PaneProfile>, next: PaneId): (r: (seq<PaneProfile>, PaneId))
    ensures |r.0| == |panes|
    decreases |panes|
  {
    if panes == [] then ([], next)
    else
      var (rest, after) := NumberPanes(panes[1..], SaturatingNext(next));
      ([panes[0].(paneId := Some(next))] + rest, after)
  }

  function NumberAll(workspaces: seq<WorkspaceProfile>, next: PaneId): seq<WorkspaceProfile>
    decreases |workspaces|
  {
    if workspaces == [] then []
    else
      var (panes, after) := NumberPanes(workspaces[0].panes, next);
      [workspaces[0].(panes := panes)] + NumberAll(workspaces[1..], after)
  }

  /** The panes a replacement restores: the profile's, or a single new one. */
  function Effective(profile: Profile, first: PaneId): Profile {
    if first > 1 && NoPanes(profile.workspaces) then
      profile.(workspaces := [WorkspaceProfile(0, [PaneProfile(0, Some(first))], None)])
    else profile
  }

  function Replaced(profile: Profile, first: PaneId): Attachment {
    var p := Effective(profile, first);
    var numbered := if first > 1 then p.(workspaces := NumberAll(p.workspaces, first)) else p;
    var restored := FromProfile(numbered);
    var a := if restored.Some? then restored.value else DefaultAttachment;
    a.(nextPaneId := Max(a.nextPaneId, first))
  }

  /** The inner loop of the renumbering: one workspace's panes get consecutive ids. */
  method RenumberPanes(panes: seq<PaneProfile>, first: PaneId) returns (numbered: seq<PaneProfile>, next: PaneId)
    ensures (numbered, next) == NumberPanes(panes, first)
  {
    numbered, next := panes, first;
    assert panes[0..] == panes && numbered[..0] + NumberPanes(panes, first).0 == NumberPanes(panes, first).0;
    for j := 0 to |panes|
      invariant |numbered| == |panes| && numbered[j..] == panes[j..]
      invariant NumberPanes(panes, first).0 == numbered[..j] + NumberPanes(panes[j..], next).0
      invariant NumberPanes(panes, first).1 == NumberPanes(panes[j..], next).1
    {
      ghost var before := numbered;
      assert panes[j..][1..] == panes[j + 1..];
      numbered := numbered[j := numbered[j].(paneId := Some(next))];
      assert numbered[..j + 1] == before[..j] + [before[j].(paneId := Some(next))];
      next := SaturatingNext(next);
    }
    assert panes[|panes|..] == [] && numbered[..|panes|] + [] == numbered;
  }

  /** The outer loop: every workspace in turn, in range or not. */
  method RenumberAll(workspaces: seq<WorkspaceProfile>, first: PaneId) returns (numbered: seq<WorkspaceProfile>)
    ensures numbered == NumberAll(workspaces, first)
  {
    numbered := [];
    var next := first;
    assert workspaces[0..] == workspaces && [] + NumberAll(workspaces, first) == NumberAll(workspaces, first);
    for i := 0 to |workspaces|
      invariant NumberAll(workspaces, first) == numbered + NumberAll(workspaces[i..], next)
    {
      assert workspaces[i..][1..] == workspaces[i + 1..];
      var panes, after := RenumberPanes(workspaces[i].panes, next);
      var w := workspaces[i].(panes := panes);
      assert numbered + ([w] + NumberAll(workspaces[i + 1..], after)) ==
             numbered + [w] + NumberAll(workspaces[i + 1..], after);
      numbered := numbered + [w];
      next := after;
    }
    assert numbered + [] == numbered;
  }

  /** `replace_layout_from_profile`. */
  method ReplaceLayoutFromProfile(profile: Profile, first: PaneId) returns (current: Attachment)
    ensures current == Replaced(profile, first)
    ensures current.nextPaneId >= first
  {
    var workspaces := profile.workspaces;
    if first > 1 && NoPanes(workspaces) {
      workspaces := [WorkspaceProfile(0, [PaneProfile(0, Some(first))], None)];
    }
    if first > 1 {
      workspaces := RenumberAll(workspaces, first);
    }
    var restored := AttachmentFromProfile(profile.(workspaces := workspaces));
    current := if restored.Some? then restored.value else DefaultAttachment;
    current := current.(nextPaneId := Max(current.nextPaneId, first));
  }

  // ---------------------------------------------------------------- what a replacement should give

  predicate PaneAt(workspaces: seq<Workspace>, w: int, k: int) {
    0 <= w < |workspaces| && 0 <= k < |workspaces[w].panes|
  }

  /** Every pane id is at least `low` and below `high`, and no two panes share one. */
  ghost predicate Numbered(workspaces: seq<Workspace>, low: int, high: int) {
    && (forall w, k | PaneAt(workspaces, w, k) :: low <= workspaces[w].panes[k] < high)
    && (forall w, k, v, j | PaneAt(workspaces, w, k) && PaneAt(workspaces, v, j) && (w != v || k != j) ::
          workspaces[w].panes[k] != workspaces[v].panes[j])
  }

  /** A workspace's focus is one of its own panes, when it has any. */
  predicate FocusesItself(w: Workspace) {
    if w.panes == [] then w.focused.None? else w.focused.Some? && w.focused.value in w.panes
  }

  /** The focus is that of a workspace that exists. */
  predicate FocusesActive(a: Attachment) {
    a.activeWorkspace < |a.workspaces| && a.focused == a.workspaces[a.activeWorkspace].focused
  }

  /** A sound replacement: distinct ids from `first` up, the next id above them all, every focus its
      workspace's own and the active workspace's the attachment's, and at least one pane. */
  ghost predicate Sound(a: Attachment, first: PaneId) {
    && Numbered(a.workspaces, first, a.nextPaneId)
    && (forall w | w in a.workspaces :: FocusesItself(w))
    && FocusesActive(a)
    && !AllEmpty(a.workspaces)
  }

  /** The last id of every in-range workspace stays below the maximum, numbering from `start`. */
  predicate Fits(workspaces: seq<WorkspaceProfile>, start: nat)
    decreases |workspaces|
  {
    workspaces == [] ||
    (&& (workspaces[0].index < WORKSPACE_COUNT && workspaces[0].panes != [] ==>
           start + |workspaces[0].panes| <= PANE_ID_MAX)
     && Fits(workspaces[1..], start + |workspaces[0].panes|))
  }

  predicate HasPaneInRange(workspaces: seq<WorkspaceProfile>) {
    exists w | w in workspaces :: w.index < WORKSPACE_COUNT && w.panes != []
  }

  // ---------------------------------------------------------------- proof

  function Saturated(x: nat): PaneId {
    if x < PANE_ID_MAX then x else PANE_ID_MAX
  }

  lemma {:induction false} NumberPanesIs(panes: seq<PaneProfile>, start: nat)
    ensures var (numbered, after) := NumberPanes(panes, Saturated(start));
            && after == Saturated(start + |panes|)
            && forall k | 0 <= k < |panes| :: numbered[k] == panes[k].(paneId := Some(Saturated(start + k)))
    decreases |panes|
  {
    if panes != [] {
      NumberPanesIs(panes[1..], start + 1);
    }
  }

  /** Panes numbered from `start` keep their numbers, which are new and become the highest. */
  lemma {:induction false} AddNumbered(p: Panes, todo: seq<PaneProfile>, start: nat)
    requires start + |todo| <= PANE_ID_MAX
    requires forall k | 0 <= k < |todo| :: todo[k].paneId == Some(start + k)
    ensures var r := AddPanes(p, todo);
            && |r.ids| == |p.ids| + |todo| && p.ids <= r.ids
            && (forall k | |p.ids| <= k < |r.ids| :: r.ids[k] == start + (k - |p.ids|))
            && r.next >= p.next && (todo != [] ==> r.next >= start + |todo|)
            && (forall id | id in r.byProfile ::
                  r.byProfile[id] in r.ids || (id in p.byProfile && r.byProfile[id] == p.byProfile[id]))
    decreases |todo|
  {
    if todo != [] {
      var one := AddPane(p, todo[0]);
      AddNumbered(one, todo[1..], start + 1);
      var r := AddPanes(p, todo);
      assert r.ids[|p.ids|] == start && start in r.ids;
      forall id | id in one.byProfile
        ensures one.byProfile[id] == start || (id in p.byProfile && one.byProfile[id] == p.byProfile[id])
      {
      }
    }
  }

  /** One workspace's panes, numbered above everything so far. */
  lemma RestoreOneKeeps(workspaces: seq<Workspace>, next: PaneId, w: WorkspaceProfile, low: nat, start: nat)
    requires |workspaces| == WORKSPACE_COUNT && low <= start
    requires Numbered(workspaces, low, start) && (forall x | x in workspaces :: FocusesItself(x))
    requires forall v, k | PaneAt(workspaces, v, k) :: workspaces[v].panes[k] < next
    requires w.index < WORKSPACE_COUNT ==> w.panes == [] || start + |w.panes| <= PANE_ID_MAX
    requires forall k | 0 <= k < |w.panes| :: w.panes[k].paneId == Some(Saturated(start + k))
    ensures var (ws, n) := RestoreOne(workspaces, next, w);
            && Numbered(ws, low, start + |w.panes|) && (forall x | x in ws :: FocusesItself(x))
            && (forall v, k | PaneAt(ws, v, k) :: ws[v].panes[k] < n)
  {
    if w.index < WORKSPACE_COUNT {
      if w.panes == [] {
        var p := Panes(workspaces[w.index].panes, map[], next);
        assert workspaces[w.index] in workspaces;
        assert RestoreOne(workspaces, next, w).0[w.index].panes == workspaces[w.index].panes;
      } else {
        var p := Panes(workspaces[w.index].panes, map[], next);
        AddNumbered(p, w.panes, start);
        var r := AddPanes(p, w.panes);
        var (ws, n) := RestoreOne(workspaces, next, w);
        forall v, k | PaneAt(ws, v, k)
          ensures low <= ws[v].panes[k] < start + |w.panes| && ws[v].panes[k] < n
          ensures ws[v].panes[k] < start ==> PaneAt(workspaces, v, k) && workspaces[v].panes[k] == ws[v].panes[k]
          ensures ws[v].panes[k] >= start ==> v == w.index && k == |p.ids| + (ws[v].panes[k] - start)
        {
          if v == w.index && k >= |p.ids| {
            assert r.ids[k] == start + (k - |p.ids|);
          } else {
            assert PaneAt(workspaces, v, k) && workspaces[v].panes[k] == ws[v].panes[k];
          }
        }
      }
    }
  }

  function PaneCount(workspaces: seq<WorkspaceProfile>): nat {
    if workspaces == [] then 0 else |workspaces[0].panes| + PaneCount(workspaces[1..])
  }

  lemma {:induction false} RestoreAllKeeps(workspaces: seq<Workspace>, next: PaneId, todo: seq<WorkspaceProfile>,
                                           low: nat, start: nat)
    requires |workspaces| == WORKSPACE_COUNT && low <= start
    requires Numbered(workspaces, low, start) && (forall x | x in workspaces :: FocusesItself(x))
    requires forall v, k | PaneAt(workspaces, v, k) :: workspaces[v].panes[k] < next
    requires Fits(todo, start)
    ensures var (ws, n) := RestoreAll(workspaces, next, NumberAll(todo, Saturated(start)));
            && Numbered(ws, low, start + PaneCount(todo)) && (forall x | x in ws :: FocusesItself(x))
            && (forall v, k | PaneAt(ws, v, k) :: ws[v].panes[k] < n)
    decreases |todo|
  {
    if todo != [] {
      NumberPanesIs(todo[0].panes, start);
      var numbered := NumberAll(todo, Saturated(start));
      var w := numbered[0];
      RestoreOneKeeps(workspaces, next, w, low, start);
      var (ws, n) := RestoreOne(workspaces, next, w);
      assert numbered[1..] == NumberAll(todo[1..], Saturated(start + |w.panes|));
      RestoreAllKeeps(ws, n, todo[1..], low, start + |w.panes|);
    }
  }

  // ---------------------------------------------------------------- which pane goes where

  /** Consecutive ids, saturating. */
  function Numbers(start: nat, count: nat): seq<PaneId>
    decreases count
  {
    if count == 0 then [] else [Saturated(start)] + Numbers(start + 1, count - 1)
  }

  /** The ids the panes of workspace `v` should get: its profiles' panes in order, each at its place
      in the numbering of the whole profile. */
  function Placed(todo: seq<WorkspaceProfile>, start: nat, v: nat): seq<PaneId>
    decreases |todo|
  {
    if todo == [] then []
    else
      (if todo[0].index == v then Numbers(start, |todo[0].panes|) else []) +
      Placed(todo[1..], start + |todo[0].panes|, v)
  }

  lemma {:induction false} AddPanesAppends(p: Panes, todo: seq<PaneProfile>, start: nat)
    requires forall k | 0 <= k < |todo| :: todo[k].paneId == Some(Saturated(start + k))
    ensures AddPanes(p, todo).ids == p.ids + Numbers(start, |todo|)
    decreases |todo|
  {
    if todo == [] {
      assert p.ids + [] == p.ids;
    } else {
      AddPanesAppends(AddPane(p, todo[0]), todo[1..], start + 1);
      assert p.ids + [Saturated(start)] + Numbers(start + 1, |todo| - 1) ==
             p.ids + ([Saturated(start)] + Numbers(start + 1, |todo| - 1));
    }
  }

  lemma RestoreOnePlaces(workspaces: seq<Workspace>, next: PaneId, w: WorkspaceProfile, start: nat, v: nat)
    requires |workspaces| == WORKSPACE_COUNT && v < WORKSPACE_COUNT
    requires forall k | 0 <= k < |w.panes| :: w.panes[k].paneId == Some(Saturated(start + k))
    ensures RestoreOne(workspaces, next, w).0[v].panes ==
            workspaces[v].panes + (if w.index == v then Numbers(start, |w.panes|) else [])
  {
    if w.index < WORKSPACE_COUNT {
      AddPanesAppends(Panes(workspaces[w.index].panes, map[], next), w.panes, start);
    }
    assert workspaces[v].panes + [] == workspaces[v].panes;
  }

  lemma JoinedInOrder(a: seq<PaneId>, b: seq<PaneId>, c: seq<PaneId>)
    ensures a + b + c == a + (b + c)
  {
  }

  /** Every pane is restored into its own workspace, in order, under its own number. */
  lemma {:induction false} RestoreAllPlaces(workspaces: seq<Workspace>, next: PaneId, todo: seq<WorkspaceProfile>,
                                            start: nat, v: nat)
    requires |workspaces| == WORKSPACE_COUNT && v < WORKSPACE_COUNT
    ensures RestoreAll(workspaces, next, NumberAll(todo, Saturated(start))).0[v].panes ==
            workspaces[v].panes + Placed(todo, start, v)
    decreases |todo|
  {
    if todo == [] {
      assert workspaces[v].panes + [] == workspaces[v].panes;
    } else {
      NumberPanesIs(todo[0].panes, start);
      var (panes, after) := NumberPanes(todo[0].panes, Saturated(start));
      var w := todo[0].(panes := panes);
      var (ws, n) := RestoreOne(workspaces, next, w);
      RestoreOnePlaces(workspaces, next, w, start, v);
      RestoreAllPlaces(ws, n, todo[1..], start + |panes|, v);
      JoinedInOrder(workspaces[v].panes, if w.index == v then Numbers(start, |panes|) else [],
                    Placed(todo[1..], start + |panes|, v));
    }
  }

  lemma {:induction false} AddPanesKeeps(p: Panes, todo: seq<PaneProfile>, id: PaneId)
    requires id in p.byProfile && forall k | 0 <= k < |todo| :: todo[k].id != id
    ensures var r := AddPanes(p, todo);
            && |r.ids| == |p.ids| + |todo| && p.ids <= r.ids
            && id in r.byProfile && r.byProfile[id] == p.byProfile[id]
    decreases |todo|
  {
    if todo != [] {
      AddPanesKeeps(AddPane(p, todo[0]), todo[1..], id);
    }
  }

  lemma {:induction false} AddPanesMaps(p: Panes, todo: seq<PaneProfile>, id: PaneId, j: nat)
    requires j < |todo| && todo[j].id == id && forall k | j < k < |todo| :: todo[k].id != id
    ensures var r := AddPanes(p, todo);
            && |r.ids| == |p.ids| + |todo|
            && id in r.byProfile && r.byProfile[id] == r.ids[|p.ids| + j]
    decreases |todo|
  {
    var one := AddPane(p, todo[0]);
    if j > 0 {
      AddPanesMaps(one, todo[1..], id, j - 1);
    } else {
      AddPanesKeeps(one, todo[1..], id);
    }
  }

  /** The pane a workspace profile names as focused is the one focused after restoring, under
      whatever id it got. If the profile gives several panes that name, it is the last of them. */
  lemma FocusFollowsProfile(workspaces: seq<Workspace>, next: PaneId, w: WorkspaceProfile, j: nat)
    requires |workspaces| == WORKSPACE_COUNT && w.index < WORKSPACE_COUNT
    requires j < |w.panes| && w.focused == Some(w.panes[j].id)
    requires forall k | j < k < |w.panes| :: w.panes[k].id != w.panes[j].id
    ensures var restored := RestoreOne(workspaces, next, w).0[w.index];
            var place := |workspaces[w.index].panes| + j;
            && place < |restored.panes| && restored.focused == Some(restored.panes[place])
  {
    AddPanesMaps(Panes(workspaces[w.index].panes, map[], next), w.panes, w.panes[j].id, j);
  }

  /** Restoring only ever appends panes to a workspace. */
  predicate Grows(before: seq<Workspace>, after: seq<Workspace>) {
    |before| == |after| && forall v | 0 <= v < |before| :: before[v].panes <= after[v].panes
  }

  lemma {:induction false} NumbersAt(start: nat, count: nat, k: nat)
    requires k < count
    ensures |Numbers(start, count)| == count && Numbers(start, count)[k] == Saturated(start + k)
    decreases count
  {
    if count > 1 {
      NumbersAt(start + 1, count - 1, if k == 0 then 0 else k - 1);
    }
  }

  lemma {:induction false} PlacedSomewhere(todo: seq<WorkspaceProfile>, start: nat) returns (v: nat)
    requires HasPaneInRange(todo)
    ensures v < WORKSPACE_COUNT && Placed(todo, start, v) != []
    decreases |todo|
  {
    if todo[0].index < WORKSPACE_COUNT && todo[0].panes != [] {
      v := todo[0].index;
    } else {
      v := PlacedSomewhere(todo[1..], start + |todo[0].panes|);
    }
  }

  /** A numbering that does not fit gives some pane the maximum id. */
  lemma {:induction false} PlacedAtMaximum(todo: seq<WorkspaceProfile>, start: nat) returns (v: nat, k: nat)
    requires !Fits(todo, start)
    ensures v < WORKSPACE_COUNT && k < |Placed(todo, start, v)| && Placed(todo, start, v)[k] == PANE_ID_MAX
    decreases |todo|
  {
    var count := |todo[0].panes|;
    if todo[0].index < WORKSPACE_COUNT && count > 0 && start + count > PANE_ID_MAX {
      v, k := todo[0].index, count - 1;
      NumbersAt(start, count, k);
    } else {
      v, k := PlacedAtMaximum(todo[1..], start + count);
      k := k + (if todo[0].index == v then |Numbers(start, count)| else 0);
    }
  }

  lemma RestoreAllGrows(workspaces: seq<Workspace>, next: PaneId, todo: seq<WorkspaceProfile>, start: nat)
    requires |workspaces| == WORKSPACE_COUNT
    ensures var ws := RestoreAll(workspaces, next, NumberAll(todo, Saturated(start))).0;
            && Grows(workspaces, ws)
            && (HasPaneInRange(todo) ==> exists v :: PaneAt(ws, v, 0))
            && (!Fits(todo, start) ==> exists v, k :: PaneAt(ws, v, k) && ws[v].panes[k] == PANE_ID_MAX)
  {
    var ws := RestoreAll(workspaces, next, NumberAll(todo, Saturated(start))).0;
    forall v: nat | v < WORKSPACE_COUNT
      ensures ws[v].panes == workspaces[v].panes + Placed(todo, start, v)
    {
      RestoreAllPlaces(workspaces, next, todo, start, v);
    }
    if HasPaneInRange(todo) {
      var v := PlacedSomewhere(todo, start);
      assert PaneAt(ws, v, 0);
    }
    if !Fits(todo, start) {
      var v, k := PlacedAtMaximum(todo, start);
      assert PaneAt(ws, v, |workspaces[v].panes| + k);
    }
  }

  /** Without a pane in range nothing is restored at all. */
  lemma {:induction false} RestoresNothing(workspaces: seq<Workspace>, next: PaneId, todo: seq<WorkspaceProfile>,
                                           start: PaneId)
    requires |workspaces| == WORKSPACE_COUNT && AllEmpty(workspaces) && !HasPaneInRange(todo)
    ensures AllEmpty(RestoreAll(workspaces, next, NumberAll(todo, start)).0)
    decreases |todo|
  {
    if todo != [] {
      assert todo[0] in todo;
      var numbered := NumberAll(todo, start);
      var w := numbered[0];
      var (one, n) := RestoreOne(workspaces, next, w);
      var after := NumberPanes(todo[0].panes, start).1;
      assert numbered[1..] == NumberAll(todo[1..], after);
      forall x | x in one
        ensures x.panes == []
      {
        if w.index < WORKSPACE_COUNT {
          assert todo[0].panes == [] && w.panes == [];
          assert workspaces[w.index] in workspaces;
          assert x in workspaces || x == one[w.index];
        }
      }
      RestoresNothing(one, n, todo[1..], after);
    }
  }

  lemma {:induction false} NumberAllKeepsPanes(todo: seq<WorkspaceProfile>, start: PaneId)
    ensures NoPanes(NumberAll(todo, start)) <==> NoPanes(todo)
    decreases |todo|
  {
    if todo != [] {
      var (panes, after) := NumberPanes(todo[0].panes, start);
      NumberAllKeepsPanes(todo[1..], after);
      var numbered := NumberAll(todo, start);
      assert numbered == [todo[0].(panes := panes)] + NumberAll(todo[1..], after);
      assert forall w :: w in todo <==> w == todo[0] || w in todo[1..];
      assert forall w :: w in numbered <==> w == numbered[0] || w in NumberAll(todo[1..], after);
    }
  }

  /** What a replacement with a first id above 1 makes of the numbered profile. */
  lemma ReplacedIs(profile: Profile, first: PaneId)
    requires first > 1
    ensures var todo := Effective(profile, first).workspaces;
            var (ws, n) := RestoreAll(EmptyWorkspaces, 1, NumberAll(todo, first));
            var a := Replaced(profile, first);
            if HasPaneInRange(todo) then a.workspaces == ws && a.nextPaneId == Max(n, first) && !AllEmpty(ws)
            else a.workspaces == DefaultAttachment.workspaces
  {
    var todo := Effective(profile, first).workspaces;
    NumberAllKeepsPanes(todo, first);
    if HasPaneInRange(todo) {
      RestoreAllGrows(EmptyWorkspaces, 1, todo, first);
      assert Saturated(first) == first;
      var ws := RestoreAll(EmptyWorkspaces, 1, NumberAll(todo, first)).0;
      var v :| PaneAt(ws, v, 0);
      assert ws[v] in ws;
    } else {
      RestoresNothing(EmptyWorkspaces, 1, todo, first);
    }
  }

  lemma ReplacedFocusesActive(profile: Profile, first: PaneId)
    ensures FocusesActive(Replaced(profile, first))
  {
  }

  lemma FromNothing(todo: seq<WorkspaceProfile>, first: PaneId, v: nat)
    requires v < WORKSPACE_COUNT
    ensures RestoreAll(EmptyWorkspaces, 1, NumberAll(todo, first)).0[v].panes == Placed(todo, first, v)
  {
    assert Saturated(first) == first && EmptyWorkspaces[v] == EmptyWorkspace;
    RestoreAllPlaces(EmptyWorkspaces, 1, todo, first, v);
    assert EmptyWorkspace.panes + Placed(todo, first, v) == Placed(todo, first, v);
  }

  /** Whenever anything of the profile is restored, every workspace has exactly its own panes, in
      order and numbered from `first` across the whole profile. */
  lemma ReplacementPlacesPanes(profile: Profile, first: PaneId, v: nat)
    requires first > 1 && v < WORKSPACE_COUNT
    requires HasPaneInRange(Effective(profile, first).workspaces)
    ensures var a := Replaced(profile, first);
            v < |a.workspaces| && a.workspaces[v].panes == Placed(Effective(profile, first).workspaces, first, v)
  {
    var todo := Effective(profile, first).workspaces;
    ReplacedIs(profile, first);
    FromNothing(todo, first, v);
  }

  lemma DefaultIsNotSound(a: Attachment, first: PaneId)
    requires first > 1 && a.workspaces == DefaultAttachment.workspaces
    ensures !Sound(a, first)
  {
    assert PaneAt(a.workspaces, 0, 0) && a.workspaces[0].panes[0] == 1;
  }

  lemma FittingIsSound(a: Attachment, todo: seq<WorkspaceProfile>, first: PaneId)
    requires Fits(todo, first) && !AllEmpty(a.workspaces) && FocusesActive(a)
    requires var (ws, n) := RestoreAll(EmptyWorkspaces, 1, NumberAll(todo, first));
             a.workspaces == ws && a.nextPaneId == Max(n, first)
    ensures Sound(a, first)
  {
    assert Saturated(first) == first;
    RestoreAllKeeps(EmptyWorkspaces, 1, todo, first, first);
  }

  lemma OverflowIsNotSound(a: Attachment, todo: seq<WorkspaceProfile>, first: PaneId)
    requires !Fits(todo, first)
    requires a.workspaces == RestoreAll(EmptyWorkspaces, 1, NumberAll(todo, first)).0
    ensures !Sound(a, first)
  {
    assert Saturated(first) == first;
    RestoreAllGrows(EmptyWorkspaces, 1, todo, first);
    var v, k :| PaneAt(a.workspaces, v, k) && a.workspaces[v].panes[k] == PANE_ID_MAX;
  }

  /** Replacing a layout with first id above 1 is sound - distinct ids from that id up, a next id
      above them all, every focus its workspace's own and the active one's the attachment's - if and
      only if the panes it restores include one in an in-range workspace and none of those would be
      numbered up to the maximum. */
  lemma ReplacementIsSound(profile: Profile, first: PaneId)
    requires first > 1
    ensures var todo := Effective(profile, first).workspaces;
            Sound(Replaced(profile, first), first) <==> HasPaneInRange(todo) && Fits(todo, first)
  {
    var todo := Effective(profile, first).workspaces;
    ReplacedIs(profile, first);
    if !HasPaneInRange(todo) {
      DefaultIsNotSound(Replaced(profile, first), first);
    } else if Fits(todo, first) {
      ReplacedFocusesActive(profile, first);
      FittingIsSound(Replaced(profile, first), todo, first);
    } else {
      OverflowIsNotSound(Replaced(profile, first), todo, first);
    }
  }

  /** A single pane by itself, numbered as it already was. */
  lemma OnePane(first: PaneId)
    ensures var one := [WorkspaceProfile(0, [PaneProfile(0, Some(first))], None)];
            && NumberAll(one, first) == one
            && RestoreAll(EmptyWorkspaces, 1, one).0 == EmptyWorkspaces[0 := Workspace([first], Some(first))]
  {
    var panes := [PaneProfile(0, Some(first))];
    var one := [WorkspaceProfile(0, panes, None)];
    assert NumberPanes(panes[1..], SaturatingNext(first)) == ([], SaturatingNext(first));
    assert NumberPanes(panes, first).0 == panes;
    assert NumberAll(one[1..], SaturatingNext(first)) == [];
    var start := Panes([], map[], 1);
    assert EmptyWorkspaces[0].panes == [];
    assert AddPanes(start, panes) == AddPanes(AddPane(start, panes[0]), panes[1..]) == AddPane(start, panes[0]);
    assert AddPane(start, panes[0]).ids == [first];
    var (ws, n) := RestoreOne(EmptyWorkspaces, 1, one[0]);
    assert ws[0] == Workspace([first], Some(first));
    assert RestoreAll(EmptyWorkspaces, 1, one) == RestoreAll(ws, n, one[1..]) == (ws, n);
  }

  /** An empty profile is replaced by one pane, which is always sound short of the maximum. */
  lemma EmptyProfileGetsOnePane(profile: Profile, first: PaneId)
    requires first > 1 && NoPanes(profile.workspaces)
    ensures Sound(Replaced(profile, first), first) <==> first < PANE_ID_MAX
    ensures Replaced(profile, first).workspaces == EmptyWorkspaces[0 := Workspace([first], Some(first))]
  {
    var todo := Effective(profile, first).workspaces;
    assert todo[0] in todo && todo[1..] == [];
    assert Fits(todo, first) <==> first + 1 <= PANE_ID_MAX;
    ReplacementIsSound(profile, first);
    ReplacedIs(profile, first);
    OnePane(first);
  }

  // ---------------------------------------------------------------- which workspace and pane has the focus

  /** The active workspace is the one the profile names, when there is one of that number, and its
      focus is the attachment's. */
  lemma ActiveFollowsProfile(profile: Profile, first: PaneId)
    requires first > 1 && HasPaneInRange(Effective(profile, first).workspaces)
    ensures var a := Replaced(profile, first);
            && |a.workspaces| == WORKSPACE_COUNT && a.activeWorkspace < WORKSPACE_COUNT
            && (profile.activeWorkspace < WORKSPACE_COUNT ==> a.activeWorkspace == profile.activeWorkspace)
            && (profile.activeWorkspace >= WORKSPACE_COUNT ==> a.activeWorkspace == 0)
            && a.focused == a.workspaces[a.activeWorkspace].focused
  {
    var todo := Effective(profile, first).workspaces;
    ReplacedIs(profile, first);
    NumberAllKeepsPanes(todo, first);
    assert FromProfile(Effective(profile, first).(workspaces := NumberAll(todo, first))).Some?;
  }

  lemma {:induction false} AddPanesMapsOnly(p: Panes, todo: seq<PaneProfile>, id: PaneId)
    requires forall k | 0 <= k < |todo| :: todo[k].id != id
    ensures id in AddPanes(p, todo).byProfile <==> id in p.byProfile
    decreases |todo|
  {
    if todo != [] {
      AddPanesMapsOnly(AddPane(p, todo[0]), todo[1..], id);
    }
  }

  /** A workspace profile that names no focused pane, or one it does not have, leaves the first pane
      of the workspace focused. */
  lemma FocusFallsBack(workspaces: seq<Workspace>, next: PaneId, w: WorkspaceProfile)
    requires |workspaces| == WORKSPACE_COUNT && w.index < WORKSPACE_COUNT
    requires w.focused.Some? ==> forall k | 0 <= k < |w.panes| :: w.panes[k].id != w.focused.value
    ensures var restored := RestoreOne(workspaces, next, w).0[w.index];
            restored.focused == if restored.panes == [] then None else Some(restored.panes[0])
  {
    if w.focused.Some? {
      AddPanesMapsOnly(Panes(workspaces[w.index].panes, map[], next), w.panes, w.focused.value);
    }
  }

  /** The workspace profiles for other workspaces leave one alone. */
  lemma {:induction false} OthersLeaveAlone(workspaces: seq<Workspace>, next: PaneId, todo: seq<WorkspaceProfile>,
                                            v: nat)
    requires |workspaces| == WORKSPACE_COUNT && v < WORKSPACE_COUNT
    requires forall i | 0 <= i < |todo| :: todo[i].index != v
    ensures RestoreAll(workspaces, next, todo).0[v] == workspaces[v]
    decreases |todo|
  {
    if todo != [] {
      var (ws, n) := RestoreOne(workspaces, next, todo[0]);
      OthersLeaveAlone(ws, n, todo[1..], v);
    }
  }

  lemma {:induction false} NumberAllKeepsIndex(todo: seq<WorkspaceProfile>, start: PaneId)
    ensures |NumberAll(todo, start)| == |todo|
    ensures forall i | 0 <= i < |todo| :: NumberAll(todo, start)[i].index == todo[i].index
    decreases |todo|
  {
    if todo != [] {
      NumberAllKeepsIndex(todo[1..], NumberPanes(todo[0].panes, start).1);
    }
  }

  lemma NumberedFocus(workspaces: seq<Workspace>, next: PaneId, w: WorkspaceProfile, start: nat, j: nat)
    requires |workspaces| == WORKSPACE_COUNT && w.index < WORKSPACE_COUNT
    requires forall k | 0 <= k < |w.panes| :: w.panes[k].paneId == Some(Saturated(start + k))
    requires j < |w.panes| && w.focused == Some(w.panes[j].id)
    requires forall k | j < k < |w.panes| :: w.panes[k].id != w.panes[j].id
    ensures RestoreOne(workspaces, next, w).0[w.index].focused == Some(Saturated(start + j))
  {
    FocusFollowsProfile(workspaces, next, w, j);
    RestoreOnePlaces(workspaces, next, w, start, w.index);
    NumbersAt(start, |w.panes|, j);
  }

  /** The panes of the workspace profiles before `i`. */
  function PanesBefore(todo: seq<WorkspaceProfile>, i: nat): nat
    requires i <= |todo|
  {
    if i == 0 then 0 else |todo[0].panes| + PanesBefore(todo[1..], i - 1)
  }

  /** Workspace profile `i`, the last one for its workspace, names its pane `j` as focused. */
  predicate Names(todo: seq<WorkspaceProfile>, i: nat, j: nat) {
    && i < |todo| && j < |todo[i].panes| && todo[i].index < WORKSPACE_COUNT
    && todo[i].focused == Some(todo[i].panes[j].id)
    && (forall k | j < k < |todo[i].panes| :: todo[i].panes[k].id != todo[i].panes[j].id)
    && (forall k | i < k < |todo| :: todo[k].index != todo[i].index)
  }

  lemma FirstFocuses(workspaces: seq<Workspace>, next: PaneId, todo: seq<WorkspaceProfile>, start: nat, j: nat)
    requires |workspaces| == WORKSPACE_COUNT && Names(todo, 0, j)
    ensures RestoreAll(workspaces, next, NumberAll(todo, Saturated(start))).0[todo[0].index].focused ==
            Some(Saturated(start + j))
  {
    NumberPanesIs(todo[0].panes, start);
    var (panes, after) := NumberPanes(todo[0].panes, Saturated(start));
    var w := todo[0].(panes := panes);
    var (ws, n) := RestoreOne(workspaces, next, w);
    assert forall k | 0 <= k < |panes| :: panes[k].id == todo[0].panes[k].id;
    NumberedFocus(workspaces, next, w, start, j);
    NumberAllKeepsIndex(todo[1..], after);
    OthersLeaveAlone(ws, n, NumberAll(todo[1..], after), w.index);
  }

  lemma {:induction false} RestoreAllFocuses(workspaces: seq<Workspace>, next: PaneId, todo: seq<WorkspaceProfile>,
                                             start: nat, i: nat, j: nat)
    requires |workspaces| == WORKSPACE_COUNT && Names(todo, i, j)
    ensures RestoreAll(workspaces, next, NumberAll(todo, Saturated(start))).0[todo[i].index].focused ==
            Some(Saturated(start + PanesBefore(todo, i) + j))
    decreases |todo|
  {
    if i == 0 {
      FirstFocuses(workspaces, next, todo, start, j);
    } else {
      NumberPanesIs(todo[0].panes, start);
      var (panes, after) := NumberPanes(todo[0].panes, Saturated(start));
      var (ws, n) := RestoreOne(workspaces, next, todo[0].(panes := panes));
      assert Names(todo[1..], i - 1, j);
      RestoreAllFocuses(ws, n, todo[1..], start + |panes|, i - 1, j);
    }
  }

  /** In the replaced layout the focused pane of a workspace is the one the profile names, under the
      number its place in the profile gives it. */
  lemma ReplacementFocuses(profile: Profile, first: PaneId, i: nat, j: nat)
    requires first > 1 && Names(Effective(profile, first).workspaces, i, j)
    ensures var todo := Effective(profile, first).workspaces;
            var a := Replaced(profile, first);
            && |a.workspaces| == WORKSPACE_COUNT
            && a.workspaces[todo[i].index].focused == Some(Saturated(first + PanesBefore(todo, i) + j))
  {
    var todo := Effective(profile, first).workspaces;
    var ws := RestoreAll(EmptyWorkspaces, 1, NumberAll(todo, first)).0;
    assert ws[todo[i].index].focused == Some(Saturated(first + PanesBefore(todo, i) + j)) by {
      assert Saturated(first) == first;
      RestoreAllFocuses(EmptyWorkspaces, 1, todo, first, i, j);
    }
    assert Replaced(profile, first).workspaces == ws by {
      assert todo[i] in todo && HasPaneInRange(todo);
      ReplacedIs(profile, first);
    }
  }

  // ---------------------------------------------------------------- panes without a chosen id

  function InRange(todo: seq<WorkspaceProfile>): seq<WorkspaceProfile> {
    if todo == [] then []
    else (if todo[0].index < WORKSPACE_COUNT then [todo[0]] else []) + InRange(todo[1..])
  }

  predicate NoneChosen(panes: seq<PaneProfile>) {
    forall k | 0 <= k < |panes| :: panes[k].paneId.None?
  }

  lemma {:induction false} FreshPanes(p: Panes, todo: seq<PaneProfile>, start: nat)
    requires NoneChosen(todo) && p.next == Saturated(start)
    ensures AddPanes(p, todo) == AddPanes(p, NumberPanes(todo, Saturated(start)).0)
    ensures AddPanes(p, todo).next == Saturated(start + |todo|)
    decreases |todo|
  {
    if todo != [] {
      FreshPanes(AddPane(p, todo[0]), todo[1..], start + 1);
    }
  }

  /** Panes saved without ids are restored as if numbered consecutively, skipping what is skipped. */
  lemma {:induction false} FreshIdsAreConsecutive(workspaces: seq<Workspace>, todo: seq<WorkspaceProfile>, start: nat)
    requires |workspaces| == WORKSPACE_COUNT && forall i | 0 <= i < |todo| :: NoneChosen(todo[i].panes)
    ensures RestoreAll(workspaces, Saturated(start), todo) ==
            RestoreAll(workspaces, Saturated(start), NumberAll(InRange(todo), Saturated(start)))
    decreases |todo|
  {
    if todo != [] {
      var w := todo[0];
      var rest := InRange(todo[1..]);
      if w.index >= WORKSPACE_COUNT {
        assert InRange(todo) == rest;
        FreshIdsAreConsecutive(workspaces, todo[1..], start);
      } else {
        assert InRange(todo) == [w] + rest && InRange(todo)[1..] == rest;
        FreshPanes(Panes(workspaces[w.index].panes, map[], Saturated(start)), w.panes, start);
        NumberPanesIs(w.panes, start);
        var (ws, n) := RestoreOne(workspaces, Saturated(start), w);
        FreshIdsAreConsecutive(ws, todo[1..], start + |w.panes|);
      }
    }
  }

  /** A profile saved without ids is restored with every pane in its workspace, in order, numbered
      from 1 across the workspaces in range. */
  lemma FreshProfilePlacesPanes(profile: Profile, v: nat)
    requires v < WORKSPACE_COUNT
    requires forall i | 0 <= i < |profile.workspaces| :: NoneChosen(profile.workspaces[i].panes)
    requires FromProfile(profile).Some?
    ensures var a := FromProfile(profile).value;
            && |a.workspaces| == WORKSPACE_COUNT
            && a.workspaces[v].panes == Placed(InRange(profile.workspaces), 1, v)
  {
    FreshIdsAreConsecutive(EmptyWorkspaces, profile.workspaces, 1);
    FromNothing(InRange(profile.workspaces), 1, v);
  }

  // ---------------------------------------------------------------- ids that were chosen

  predicate AllChosen(panes: seq<PaneProfile>) {
    forall k | 0 <= k < |panes| :: panes[k].paneId.Some?
  }

  function ChosenIds(panes: seq<PaneProfile>): seq<PaneId>
    requires AllChosen(panes)
  {
    if panes == [] then [] else [panes[0].paneId.value] + ChosenIds(panes[1..])
  }

  /** The ids chosen for the panes of workspace `v`, in order. */
  function ChosenFor(todo: seq<WorkspaceProfile>, v: nat): seq<PaneId>
    requires forall i | 0 <= i < |todo| :: AllChosen(todo[i].panes)
    decreases |todo|
  {
    if todo == [] then []
    else
      (if todo[0].index == v then ChosenIds(todo[0].panes) else []) + ChosenFor(todo[1..], v)
  }

  lemma {:induction false} AddChosen(p: Panes, todo: seq<PaneProfile>)
    requires AllChosen(todo)
    ensures AddPanes(p, todo).ids == p.ids + ChosenIds(todo)
    decreases |todo|
  {
    if todo == [] {
      assert p.ids + [] == p.ids;
    } else {
      AddChosen(AddPane(p, todo[0]), todo[1..]);
      JoinedInOrder(p.ids, [todo[0].paneId.value], ChosenIds(todo[1..]));
    }
  }

  lemma {:induction false} RestoreAllChosen(workspaces: seq<Workspace>, next: PaneId, todo: seq<WorkspaceProfile>,
                                            v: nat)
    requires |workspaces| == WORKSPACE_COUNT && v < WORKSPACE_COUNT
    requires forall i | 0 <= i < |todo| :: AllChosen(todo[i].panes)
    ensures RestoreAll(workspaces, next, todo).0[v].panes == workspaces[v].panes + ChosenFor(todo, v)
    decreases |todo|
  {
    if todo == [] {
      assert workspaces[v].panes + [] == workspaces[v].panes;
    } else {
      var w := todo[0];
      var (ws, n) := RestoreOne(workspaces, next, w);
      if w.index < WORKSPACE_COUNT {
        AddChosen(Panes(workspaces[w.index].panes, map[], next), w.panes);
      }
      assert workspaces[v].panes + [] == workspaces[v].panes;
      RestoreAllChosen(ws, n, todo[1..], v);
      JoinedInOrder(workspaces[v].panes, if w.index == v then ChosenIds(w.panes) else [], ChosenFor(todo[1..], v));
    }
  }

  lemma {:induction false} ChosenSomewhere(todo: seq<WorkspaceProfile>, w: WorkspaceProfile)
    requires forall i | 0 <= i < |todo| :: AllChosen(todo[i].panes)
    requires w in todo && w.panes != []
    ensures ChosenFor(todo, w.index) != []
  {
    if todo[0] != w {
      ChosenSomewhere(todo[1..], w);
    }
  }

  /** Without a first id above 1, panes keep the ids chosen for them. */
  lemma ChosenIdsAreKept(profile: Profile, first: PaneId, v: nat)
    requires first <= 1 && v < WORKSPACE_COUNT && HasPaneInRange(profile.workspaces)
    requires forall i | 0 <= i < |profile.workspaces| :: AllChosen(profile.workspaces[i].panes)
    ensures var a := Replaced(profile, first);
            v < |a.workspaces| && a.workspaces[v].panes == ChosenFor(profile.workspaces, v)
  {
    RestoreAllChosen(EmptyWorkspaces, 1, profile.workspaces, v);
    assert EmptyWorkspaces[v] == EmptyWorkspace;
    assert [] + ChosenFor(profile.workspaces, v) == ChosenFor(profile.workspaces, v);
    var w :| w in profile.workspaces && w.index < WORKSPACE_COUNT && w.panes != [];
    RestoreAllChosen(EmptyWorkspaces, 1, profile.workspaces, w.index);
    ChosenSomewhere(profile.workspaces, w);
    assert RestoreAll(EmptyWorkspaces, 1, profile.workspaces).0[w.index] in
           RestoreAll(EmptyWorkspaces, 1, profile.workspaces).0;
  }
}
