/**
  The document information menu (DocContextMenu/index.tsx): the contributor
  list with its overflow toggle, and the guarded status, due-date and
  assignee updates with their busy flags.
 */
module DocInfo {
  import opened Common
  import opened Users

  // ---------------------------------------------------------------------
  // Contributors

  /** How many contributors are shown while the list is folded. */
  const FoldedContributors: nat := 5

  /** `contributorsState`: the contributors shown and how many are hidden. */
  datatype ContributorsState = ContributorsState(contributors: seq<User>, sliced: nat)

  function ContributorsOf(contributors: seq<User>, slice: bool): (r: ContributorsState)
    ensures |r.contributors| + r.sliced == |contributors|
    ensures r.contributors <= contributors
    ensures slice && |contributors| > FoldedContributors ==>
      |r.contributors| == FoldedContributors && r.sliced == |contributors| - FoldedContributors
    ensures !(slice && |contributors| > FoldedContributors) ==> r.contributors == contributors && r.sliced == 0
  {
    if slice && |contributors| > FoldedContributors then
      ContributorsState(contributors[..FoldedContributors], |contributors| - FoldedContributors)
    else
      ContributorsState(contributors, 0)
  }

  /** The caption of the overflow toggle: `+n` while `n` are hidden, `-` when all are shown. */
  datatype OverflowCaption = ShowMore(hidden: nat) | ShowLess

  /**
    The overflow toggle, drawn only for a team that is not personal and only
    when there are more than five contributors.
   */
  function OverflowToggle(contributors: seq<User>, slice: bool, personal: bool): (r: Option<OverflowCaption>)
    ensures r.Some? <==> !personal && |contributors| > FoldedContributors
    ensures r.Some? ==> (r.value.ShowMore? <==> slice)
    ensures r.Some? && r.value.ShowMore? ==> r.value.hidden == |contributors| - FoldedContributors > 0
  {
    if personal || |contributors| <= FoldedContributors then None
    else
      var st := ContributorsOf(contributors, slice);
      Some(if st.sliced > 0 then ShowMore(st.sliced) else ShowLess)
  }

  /**
    The toggle flips between the folded and the full list: whenever it is
    offered, one of the two states shows everybody and the other hides
    exactly the count its caption announces.
   */
  lemma OverflowToggleRoundTrip(contributors: seq<User>)
    requires |contributors| > FoldedContributors
    ensures OverflowToggle(contributors, true, false) == Some(ShowMore(|contributors| - FoldedContributors))
    ensures OverflowToggle(contributors, false, false) == Some(ShowLess)
    ensures ContributorsOf(contributors, true).contributors + contributors[FoldedContributors..] == contributors
    ensures ContributorsOf(contributors, false).contributors == contributors
  {
  }

  /**
    The users the contributor icons show: none for a personal team;
    otherwise the permission user with the same id when there is one
    (`usersMap.get(id) || contributor`).
   */
  function ShownContributors(perms: seq<Permission>, st: ContributorsState, personal: bool): (r: seq<User>)
    ensures personal ==> r == []
    ensures !personal ==> |r| == |st.contributors|
    ensures forall i :: 0 <= i < |r| ==> r[i].id == st.contributors[i].id
    ensures forall i :: 0 <= i < |r| ==> (st.contributors[i].id in UsersMap(perms) ==> r[i] == UsersMap(perms)[r[i].id])
    ensures forall i :: 0 <= i < |r| ==> (st.contributors[i].id !in UsersMap(perms) ==> r[i] == st.contributors[i])
  {
    if personal then []
    else
      var m := UsersMap(perms);
      seq(|st.contributors|, i requires 0 <= i < |st.contributors| => Refresh(m, st.contributors[i]))
  }

  // ---------------------------------------------------------------------
  // Updates

  /** The fields of a document the menu updates. A status may be cleared (`null`). */
  datatype DocRecord = DocRecord(id: Id, teamId: Id, status: Option<string>, dueDate: Option<int>, assignees: seq<Id>)

  datatype Toast = Toast(title: string, description: string)

  /**
    What the menu sees and changes: the document it was given (`currentDoc`,
    which the menu reads but never writes), the page's document (`pageDoc`,
    which a saved update overwrites), the navigation's documents map, the
    three busy flags, and the toasts pushed so far.
   */
  datatype MenuState = MenuState(
    currentDoc: DocRecord,
    pageDoc: DocRecord,
    docsMap: map<Id, DocRecord>,
    sendingStatus: bool,
    sendingDueDate: bool,
    sendingAssignees: bool,
    toasts: seq<Toast>)

  /** The three updates. A due date is a day stamp; `None` clears it. */
  datatype UpdateRequest =
    | SetStatus(status: Option<string>)
    | SetDueDate(due: Option<int>)
    | SetAssignees(assignees: seq<Id>)

  /**
    The early returns of the three senders: a status update to the status
    the document already has, and any update while a STATUS update is in
    flight. The due-date and assignee senders consult only the status flag,
    never their own.
   */
  predicate Ignored(st: MenuState, req: UpdateRequest)
  {
    (req.SetStatus? && st.currentDoc.status == req.status) || st.sendingStatus
  }

  /** The busy flag an update raises while its request is in flight. */
  function RaiseFlag(st: MenuState, req: UpdateRequest): (r: MenuState)
    ensures r.currentDoc == st.currentDoc && r.pageDoc == st.pageDoc && r.docsMap == st.docsMap && r.toasts == st.toasts
    ensures r.sendingStatus == (req.SetStatus? || st.sendingStatus)
    ensures r.sendingDueDate == (req.SetDueDate? || st.sendingDueDate)
    ensures r.sendingAssignees == (req.SetAssignees? || st.sendingAssignees)
  {
    match req
    case SetStatus(_) => st.(sendingStatus := true)
    case SetDueDate(_) => st.(sendingDueDate := true)
    case SetAssignees(_) => st.(sendingAssignees := true)
  }

  /** The state once the request is sent: `None` for an ignored request. */
  function BeginUpdate(st: MenuState, req: UpdateRequest): (r: Option<MenuState>)
    ensures r.None? <==> Ignored(st, req)
    ensures r.Some? ==> r.value == RaiseFlag(st, req)
  {
    if req.SetStatus? && st.currentDoc.status == req.status then None
    else if st.sendingStatus then None
    else Some(RaiseFlag(st, req))
  }

  /** The error toast of each failed update. */
  function FailureToast(req: UpdateRequest): (t: Toast)
    ensures t.title == "Error"
  {
    match req
    case SetStatus(_) => Toast("Error", "Could not change status")
    case SetDueDate(_) => Toast("Error", "Could not update due date")
    case SetAssignees(_) => Toast("Error", "Could not update assignees")
  }

  /**
    The state once the server answered: with the saved document it is stored
    in the documents map and becomes the page's document; on failure only a
    toast is added. Either way the update's own flag is lowered.
   */
  function FinishUpdate(st: MenuState, req: UpdateRequest, saved: Option<DocRecord>): (r: MenuState)
    ensures saved.Some? ==> r.pageDoc == saved.value && r.docsMap == st.docsMap[saved.value.id := saved.value] && r.toasts == st.toasts
    ensures saved.None? ==> r.pageDoc == st.pageDoc && r.docsMap == st.docsMap && r.toasts == st.toasts + [FailureToast(req)]
    ensures r.currentDoc == st.currentDoc
    ensures r.sendingStatus == (!req.SetStatus? && st.sendingStatus)
    ensures r.sendingDueDate == (!req.SetDueDate? && st.sendingDueDate)
    ensures r.sendingAssignees == (!req.SetAssignees? && st.sendingAssignees)
  {
    var answered :=
      if saved.Some? then st.(pageDoc := saved.value, docsMap := st.docsMap[saved.value.id := saved.value])
      else st.(toasts := st.toasts + [FailureToast(req)]);
    match req
    case SetStatus(_) => answered.(sendingStatus := false)
    case SetDueDate(_) => answered.(sendingDueDate := false)
    case SetAssignees(_) => answered.(sendingAssignees := false)
  }

  /** A whole update: ignored, or sent and answered. */
  function SendUpdate(st: MenuState, req: UpdateRequest, saved: Option<DocRecord>): (r: Option<MenuState>)
    ensures r.None? <==> Ignored(st, req)
  {
    match BeginUpdate(st, req)
    case None => None
    case Some(mid) => Some(FinishUpdate(mid, req, saved))
  }

  /**
    A failed update leaves the document and the documents map as they were,
    and when no flag was raised before, it leaves every flag lowered again:
    the only trace is the toast.
   */
  lemma FailedUpdateOnlyAddsToast(st: MenuState, req: UpdateRequest)
    requires !Ignored(st, req)
    requires !st.sendingDueDate && !st.sendingAssignees
    ensures SendUpdate(st, req, None) == Some(st.(toasts := st.toasts + [FailureToast(req)]))
  {
  }

  /** A successful update stores the saved document and touches no other entry of the map. */
  lemma SavedUpdateStoresDoc(st: MenuState, req: UpdateRequest, saved: DocRecord)
    requires !Ignored(st, req)
    ensures var r := SendUpdate(st, req, Some(saved));
      r.Some? && r.value.pageDoc == saved && saved.id in r.value.docsMap && r.value.docsMap[saved.id] == saved
      && (forall id :: id in st.docsMap && id != saved.id ==> id in r.value.docsMap && r.value.docsMap[id] == st.docsMap[id])
      && r.value.toasts == st.toasts && r.value.currentDoc == st.currentDoc
  {
  }

  /**
    Saving does not change the document the menu was given: right after a
    saved status update, the same status is sent again, even when the saved
    document already carries it, because the guard reads the given document
    and not the page's.
   */
  lemma GuardReadsGivenDoc(st: MenuState, status: Option<string>, saved: DocRecord)
    requires !Ignored(st, SetStatus(status))
    ensures var r := SendUpdate(st, SetStatus(status), Some(saved)).value;
      r.pageDoc == saved && BeginUpdate(r, SetStatus(status)).Some?
  {
  }

  /**
    Due-date and assignee updates are refused exactly while a status update
    is in flight, whatever their own flags say; a status update is refused
    also when it would not change the status.
   */
  lemma OnlyTheStatusFlagGuards(st: MenuState, req: UpdateRequest)
    ensures !req.SetStatus? ==> (BeginUpdate(st, req).None? <==> st.sendingStatus)
    ensures !req.SetStatus? ==>
      (BeginUpdate(st.(sendingDueDate := true, sendingAssignees := true), req).Some? <==> !st.sendingStatus)
    ensures req.SetStatus? ==> (BeginUpdate(st, req).None? <==> st.sendingStatus || req.status == st.currentDoc.status)
  {
  }

  /** Every update that is sent ends with its own busy flag lowered. */
  lemma FlagLoweredAfterAnswer(st: MenuState, req: UpdateRequest, saved: Option<DocRecord>)
    requires !Ignored(st, req)
    ensures var r := SendUpdate(st, req, saved).value;
      !r.sendingStatus
      && (req.SetDueDate? ==> !r.sendingDueDate)
      && (req.SetAssignees? ==> !r.sendingAssignees)
  {
  }
}
