/**
  The document page (View.tsx): projecting comment threads onto the live
  realtime text as highlight ranges, refreshing the users named in the
  comment state from the team permissions, the transitions a highlight click
  or a text selection request, the connection-status control of the top bar,
  and the latch that ends the loading view.
 */
module DocView {
  import opened Common
  import opened Users
  import opened Comments

  datatype ConnState = Connecting | Loaded | Synced | Reconnecting | Disconnected

  /**
    The realtime document handle, reduced to the two yjs position primitives:
    `encode` pins a text index to a relative position, and `resolve` maps a
    relative position back to its current index, or to nothing when the text it
    was pinned to is gone.
   */
  datatype Realtime = Realtime(encode: nat -> RelPos, resolve: RelPos -> Option<nat>)

  /** A highlight range painted over the rendered document. */
  datatype Highlight = Highlight(id: Id, start: nat, end: nat, active: bool)

  /** A thread whose anchors are looked at: it has a selection and is not outdated. */
  predicate Tracked(t: Thread)
  {
    t.selection.Some? && t.status.kind != Outdated
  }

  /** Both ends of a tracked thread resolve, to different indices. */
  predicate Resolves(rt: Realtime, t: Thread)
    requires Tracked(t)
  {
    var a := rt.resolve(t.selection.value.anchor);
    var h := rt.resolve(t.selection.value.head);
    a.Some? && h.Some? && a.value != h.value
  }

  /** A thread that gets a highlight: tracked, resolvable, and open. */
  predicate Painted(rt: Realtime, t: Thread)
  {
    Tracked(t) && Resolves(rt, t) && t.status.kind == Open
  }

  /** A thread whose anchors are lost: tracked but not resolvable (closed ones included). */
  predicate Lost(rt: Realtime, t: Thread)
  {
    Tracked(t) && !Resolves(rt, t)
  }

  function LostIn(rt: Realtime): Thread -> bool
  {
    (t: Thread) => Lost(rt, t)
  }

  /** The id of the thread open in the panel, if a thread is shown. */
  function ShownThreadId(s: State): (r: Option<Id>)
    ensures r.Some? <==> s.ThreadMode?
    ensures r.Some? ==> r.value == s.thread.id
  {
    if s.ThreadMode? then Some(s.thread.id) else None
  }

  /**
    The highlights of `threads`, thread by thread: a reference definition
    against which the loop of `CalculatePositions` is checked.
   */
  function Projection(rt: Realtime, shown: Option<Id>, threads: seq<Thread>): seq<Highlight>
  {
    if |threads| == 0 then []
    else
      var t := threads[0];
      var rest := Projection(rt, shown, threads[1..]);
      if Painted(rt, t) then
        [Highlight(t.id, rt.resolve(t.selection.value.anchor).value, rt.resolve(t.selection.value.head).value,
                   shown == Some(t.id))] + rest
      else rest
  }

  lemma {:induction false} ProjectionConcat(rt: Realtime, shown: Option<Id>, a: seq<Thread>, b: seq<Thread>)
    ensures Projection(rt, shown, a + b) == Projection(rt, shown, a) + Projection(rt, shown, b)
  {
    if |a| == 0 {
      assert a + b == b;
    } else {
      assert (a + b)[0] == a[0];
      assert (a + b)[1..] == a[1..] + b;
      ProjectionConcat(rt, shown, a[1..], b);
    }
  }

  /**
    `calculatePositions`. While the list loads or before the realtime handle
    exists nothing is recomputed: the previous highlights stay and no thread
    is reported. Otherwise the threads are walked in order; a painted thread
    yields a highlight, and a lost thread is reported outdated only while the
    connection is synced.
   */
  method CalculatePositions(s: State, realtime: Option<Realtime>, conn: ConnState, previous: seq<Highlight>)
    returns (highlights: seq<Highlight>, outdated: seq<Thread>)
    ensures s.ListLoadingMode? || realtime.None? ==> highlights == previous && outdated == []
    ensures !s.ListLoadingMode? && realtime.Some? ==>
      highlights == Projection(realtime.value, ShownThreadId(s), s.threads)
    ensures !s.ListLoadingMode? && realtime.Some? && conn == Synced ==>
      outdated == Filter(LostIn(realtime.value), s.threads)
    ensures conn != Synced ==> outdated == []
  {
    if s.ListLoadingMode? || realtime.None? {
      return previous, [];
    }
    var rt := realtime.value;
    var shown := ShownThreadId(s);
    var threads := s.threads;
    highlights, outdated := [], [];
    var i := 0;
    while i < |threads|
      invariant 0 <= i <= |threads|
      invariant highlights == Projection(rt, shown, threads[..i])
      invariant conn == Synced ==> outdated == Filter(LostIn(rt), threads[..i])
      invariant conn != Synced ==> outdated == []
    {
      var t := threads[i];
      ProjectionStep(rt, shown, threads, i);
      if t.selection.Some? && t.status.kind != Outdated {
        var anchor := rt.resolve(t.selection.value.anchor);
        var head := rt.resolve(t.selection.value.head);
        if anchor.Some? && head.Some? && anchor.value != head.value {
          if t.status.kind == Open {
            highlights := highlights + [Highlight(t.id, anchor.value, head.value, s.ThreadMode? && t.id == s.thread.id)];
          }
        } else if conn == Synced {
          outdated := outdated + [t];
        }
      }
      i := i + 1;
    }
    assert threads[..i] == threads;
  }

  /**
    One more thread adds its highlight to the projection when it is painted,
    and itself to the lost threads when its anchors are lost.
   */
  lemma ProjectionStep(rt: Realtime, shown: Option<Id>, threads: seq<Thread>, i: nat)
    requires i < |threads|
    ensures var t := threads[i];
      Projection(rt, shown, threads[..i + 1])
      == Projection(rt, shown, threads[..i]) + (if Painted(rt, t) then [ProjectionOf(rt, shown, t)] else [])
    ensures var t := threads[i];
      Filter(LostIn(rt), threads[..i + 1]) == Filter(LostIn(rt), threads[..i]) + (if Lost(rt, t) then [t] else [])
  {
    var t := threads[i];
    assert threads[..i + 1] == threads[..i] + [t];
    ProjectionConcat(rt, shown, threads[..i], [t]);
    FilterConcat(LostIn(rt), threads[..i], [t]);
    assert [t][1..] == [];
  }

  /**
    Every highlight belongs to a painted thread of the list and carries that
    thread's id and its two resolved ends, anchor first.
   */
  lemma {:induction false} ProjectionSound(rt: Realtime, shown: Option<Id>, threads: seq<Thread>, k: int)
    requires 0 <= k < |Projection(rt, shown, threads)|
    ensures exists t :: t in threads && Painted(rt, t) && ProjectionOf(rt, shown, t) == Projection(rt, shown, threads)[k]
  {
    var t := threads[0];
    if Painted(rt, t) && k == 0 {
      assert t in threads;
    } else {
      var k' := if Painted(rt, t) then k - 1 else k;
      ProjectionSound(rt, shown, threads[1..], k');
      var u :| u in threads[1..] && Painted(rt, u) && ProjectionOf(rt, shown, u) == Projection(rt, shown, threads[1..])[k'];
      assert u in threads;
    }
  }

  /** The highlight a painted thread yields. */
  function ProjectionOf(rt: Realtime, shown: Option<Id>, t: Thread): (h: Highlight)
    requires Painted(rt, t)
    ensures h.id == t.id && h.start != h.end
    ensures Some(h.start) == rt.resolve(t.selection.value.anchor)
    ensures Some(h.end) == rt.resolve(t.selection.value.head)
    ensures h.active <==> shown == Some(t.id)
  {
    Highlight(t.id, rt.resolve(t.selection.value.anchor).value, rt.resolve(t.selection.value.head).value, shown == Some(t.id))
  }

  /** Every painted thread of the list has its highlight among the results. */
  lemma {:induction false} ProjectionComplete(rt: Realtime, shown: Option<Id>, threads: seq<Thread>, t: Thread)
    requires t in threads && Painted(rt, t)
    ensures ProjectionOf(rt, shown, t) in Projection(rt, shown, threads)
  {
    if threads[0] != t {
      ProjectionComplete(rt, shown, threads[1..], t);
    }
  }

  /** Only open threads are painted: a closed or outdated thread never yields a highlight. */
  lemma {:induction false} ProjectionOnlyOpen(rt: Realtime, shown: Option<Id>, threads: seq<Thread>)
    ensures forall h :: h in Projection(rt, shown, threads) ==>
      exists i :: 0 <= i < |threads| && threads[i].id == h.id && threads[i].status.kind == Open
  {
    if |threads| > 0 {
      ProjectionOnlyOpen(rt, shown, threads[1..]);
      forall h | h in Projection(rt, shown, threads)
        ensures exists i :: 0 <= i < |threads| && threads[i].id == h.id && threads[i].status.kind == Open
      {
        if h !in Projection(rt, shown, threads[1..]) {
          assert threads[0].id == h.id && threads[0].status.kind == Open;
        } else {
          var i :| 0 <= i < |threads[1..]| && threads[1..][i].id == h.id && threads[1..][i].status.kind == Open;
          assert threads[i + 1] == threads[1..][i];
        }
      }
    }
  }

  /** The ids of a thread list are pairwise different. */
  predicate DistinctIds(threads: seq<Thread>)
  {
    forall i, j :: 0 <= i < j < |threads| ==> threads[i].id != threads[j].id
  }

  /** With distinct thread ids, at most one highlight is active. */
  lemma {:induction false} AtMostOneActive(rt: Realtime, shown: Option<Id>, threads: seq<Thread>)
    requires DistinctIds(threads)
    ensures forall i, j :: 0 <= i < j < |Projection(rt, shown, threads)| ==>
      !(Projection(rt, shown, threads)[i].active && Projection(rt, shown, threads)[j].active)
  {
    if |threads| > 0 {
      var rest := Projection(rt, shown, threads[1..]);
      AtMostOneActive(rt, shown, threads[1..]);
      if Painted(rt, threads[0]) && shown == Some(threads[0].id) {
        forall h | h in rest ensures !h.active {
          ProjectionOnlyOpen(rt, shown, threads[1..]);
          var i :| 0 <= i < |threads[1..]| && threads[1..][i].id == h.id && threads[1..][i].status.kind == Open;
          assert threads[i + 1].id == h.id;
          ActiveMeansShown(rt, shown, threads[1..], h);
        }
      }
    }
  }

  /** An active highlight carries the id of the shown thread. */
  lemma {:induction false} ActiveMeansShown(rt: Realtime, shown: Option<Id>, threads: seq<Thread>, h: Highlight)
    requires h in Projection(rt, shown, threads)
    ensures h.active <==> shown == Some(h.id)
  {
    if h in Projection(rt, shown, threads[1..]) {
      ActiveMeansShown(rt, shown, threads[1..], h);
    }
  }

  // ---------------------------------------------------------------------
  // Refreshing the users named in the comment state

  /** `after` is `before` with its user replaced by the permission user of the same id, if any. */
  predicate RefreshedUser(m: map<Id, User>, before: Option<User>, after: Option<User>)
  {
    && (before.None? <==> after.None?)
    && (before.Some? && before.value.id in m ==> after == Some(m[before.value.id]))
    && (before.Some? && before.value.id !in m ==> after == before)
  }

  /** `t` and `u` agree on everything but who set the status. */
  predicate SameThreadBut(t: Thread, u: Thread)
  {
    t.id == u.id && t.context == u.context && t.selection == u.selection && t.status.kind == u.status.kind
  }

  function RefreshThread(m: map<Id, User>, t: Thread): (r: Thread)
    ensures SameThreadBut(r, t) && RefreshedUser(m, t.status.setBy, r.status.setBy)
  {
    if t.status.setBy.None? then t
    else t.(status := t.status.(setBy := Some(Refresh(m, t.status.setBy.value))))
  }

  function RefreshThreads(m: map<Id, User>, ts: seq<Thread>): (r: seq<Thread>)
    ensures |r| == |ts|
    ensures forall i :: 0 <= i < |ts| ==> r[i] == RefreshThread(m, ts[i])
  {
    seq(|ts|, i requires 0 <= i < |ts| => RefreshThread(m, ts[i]))
  }

  function RefreshComments(m: map<Id, User>, cs: seq<Comment>): (r: seq<Comment>)
    ensures |r| == |cs|
    ensures forall i :: 0 <= i < |cs| ==> r[i] == cs[i].(user := Refresh(m, cs[i].user))
  {
    seq(|cs|, i requires 0 <= i < |cs| => cs[i].(user := Refresh(m, cs[i].user)))
  }

  /** `r` is in the same mode as `s`. */
  predicate SameMode(r: State, s: State)
  {
    && r.ListLoadingMode? == s.ListLoadingMode?
    && r.ListMode? == s.ListMode?
    && r.ThreadLoadingMode? == s.ThreadLoadingMode?
    && r.ThreadMode? == s.ThreadMode?
    && r.NewThreadMode? == s.NewThreadMode?
  }

  /**
    `normalizedCommentState`. Without permissions, or while the list loads,
    the state is passed through. Otherwise every thread's status setter is
    replaced by the permission user with the same id, and so are, in
    `thread` mode only, the shown thread's setter and every comment's author.
   */
  function NormalizeState(s: State, perms: Option<seq<Permission>>): (r: State)
    ensures s.ListLoadingMode? || perms.None? ==> r == s
    ensures SameMode(r, s)
    ensures !s.ListLoadingMode? ==> |r.threads| == |s.threads|
    ensures !s.ListLoadingMode? && perms.Some? ==> forall i :: 0 <= i < |s.threads| ==>
      SameThreadBut(r.threads[i], s.threads[i])
      && RefreshedUser(UsersMap(perms.value), s.threads[i].status.setBy, r.threads[i].status.setBy)
    ensures s.ListMode? ==> r.filter == s.filter
    ensures s.ThreadLoadingMode? ==> r.thread == s.thread
    ensures s.NewThreadMode? ==> r.data == s.data
    ensures s.ThreadMode? && perms.Some? ==>
      SameThreadBut(r.thread, s.thread)
      && RefreshedUser(UsersMap(perms.value), s.thread.status.setBy, r.thread.status.setBy)
      && |r.comments| == |s.comments|
      && forall i :: 0 <= i < |s.comments| ==>
        r.comments[i].(user := s.comments[i].user) == s.comments[i]
        && RefreshedUser(UsersMap(perms.value), Some(s.comments[i].user), Some(r.comments[i].user))
  {
    if s.ListLoadingMode? || perms.None? then s
    else
      var m := UsersMap(perms.value);
      var ts := RefreshThreads(m, s.threads);
      match s
      case ListMode(_, f) => ListMode(ts, f)
      case ThreadLoadingMode(t, _) => ThreadLoadingMode(t, ts)
      case ThreadMode(t, cs, _) => ThreadMode(RefreshThread(m, t), RefreshComments(m, cs), ts)
      case NewThreadMode(d, _) => NewThreadMode(d, ts)
  }

  /** Normalising a normalised state changes nothing. */
  lemma NormalizeIdempotent(s: State, perms: Option<seq<Permission>>)
    ensures NormalizeState(NormalizeState(s, perms), perms) == NormalizeState(s, perms)
  {
    if !s.ListLoadingMode? && perms.Some? {
      var m := UsersMap(perms.value);
      var once := NormalizeState(s, perms);
      forall u: User ensures Refresh(m, Refresh(m, u)) == Refresh(m, u) {
        RefreshIdempotent(perms.value, u);
      }
      assert RefreshThreads(m, once.threads) == once.threads;
      if s.ThreadMode? {
        assert RefreshComments(m, once.comments) == once.comments;
      }
    }
  }

  // ---------------------------------------------------------------------
  // Requests made by the document view

  /** Which side panel the document page shows (`docContextMode`). */
  datatype ContextMode = HiddenPanel | CommentPanel | ContextPanel

  /** A panel request: the side panel to show and the mode the comment panel should take. */
  datatype PanelRequest = PanelRequest(contextMode: ContextMode, transition: ModeTransition)

  /**
    `commentClick`: ignored while the list loads; otherwise the comment panel
    opens on the list, narrowed to the clicked threads.
   */
  function CommentClick(s: State, ids: seq<Id>): (r: Option<PanelRequest>)
    ensures r.None? <==> s.ListLoadingMode?
    ensures r.Some? ==> r.value.contextMode == CommentPanel && r.value.transition.GoList?
    ensures r.Some? ==> (r.value.transition.listFilter.Some?
      && forall t :: Accepts(r.value.transition.listFilter.value, t) <==> t.id in ids)
  {
    if s.ListLoadingMode? then None
    else Some(PanelRequest(CommentPanel, GoList(Some(OnlyIds(set id | id in ids)))))
  }

  /** After a click the unrestricted list shows exactly the clicked threads, in list order. */
  lemma ClickShowsClickedThreads(s: State, ids: seq<Id>, threads: seq<Thread>)
    requires !s.ListLoadingMode?
    ensures forall t ::
      (t in VisibleThreads(threads, CommentClick(s, ids).value.transition.listFilter, AllStatuses)
      <==> t in threads && t.id in ids)
  {
  }

  /** The text selection a user opens a thread on. */
  datatype TextSelection = TextSelection(start: nat, end: nat, text: string)

  /**
    `newRangeThread`: without a realtime handle nothing happens; otherwise
    both ends of the selection are pinned to relative positions and the
    comment panel opens a new thread on them with the selected text as context.
   */
  function NewRangeThread(realtime: Option<Realtime>, sel: TextSelection): (r: Option<PanelRequest>)
    ensures r.None? <==> realtime.None?
    ensures r.Some? ==> r.value.contextMode == CommentPanel
    ensures r.Some? ==> r.value.transition.GoNewThread? && r.value.transition.context == Some(sel.text)
    ensures r.Some? ==> (r.value.transition.newSelection
      == Some(Selection(realtime.value.encode(sel.start), realtime.value.encode(sel.end))))
  {
    if realtime.None? then None
    else
      var rt := realtime.value;
      Some(PanelRequest(CommentPanel, GoNewThread(Some(sel.text), Some(Selection(rt.encode(sel.start), rt.encode(sel.end))))))
  }

  /**
    Round trip through the panel: if the document is unchanged since the
    selection was pinned, an open thread created from it is painted over
    exactly the selected range, anchor end first.
   */
  lemma NewThreadPaintsSelection(rt: Realtime, sel: TextSelection, comment: string, t: Thread, shown: Option<Id>)
    requires rt.resolve(rt.encode(sel.start)) == Some(sel.start)
    requires rt.resolve(rt.encode(sel.end)) == Some(sel.end)
    requires sel.start != sel.end
    requires var tr := NewRangeThread(Some(rt), sel).value.transition;
      t.selection == SubmitNewThread(NewThreadData(tr.context, tr.newSelection), comment).selection
    requires t.status.kind == Open
    ensures Painted(rt, t)
    ensures ProjectionOf(rt, shown, t).start == sel.start && ProjectionOf(rt, shown, t).end == sel.end
  {
  }

  /** A thread opened on an empty selection can never be painted, and counts as lost. */
  lemma EmptySelectionIsLost(rt: Realtime, sel: TextSelection, t: Thread)
    requires sel.start == sel.end
    requires t.selection == NewRangeThread(Some(rt), sel).value.transition.newSelection
    requires t.status.kind != Outdated
    ensures !Painted(rt, t) && Lost(rt, t)
  {
  }

  // ---------------------------------------------------------------------
  // Top bar controls

  datatype ButtonVariant = Secondary | Warning

  datatype TopbarControl =
    | Separator
    | StatusButton(caption: string, variant: ButtonVariant, disabled: bool, reconnects: bool)
    | MoreActions
    | CommentToggle(active: bool)
    | ContextToggle(active: bool)

  /** The connection-status button of the top bar, if the state has one. */
  function StatusControl(c: ConnState): (r: Option<TopbarControl>)
    ensures r.Some? <==> c == Reconnecting || c == Disconnected || c == Loaded
    ensures c == Reconnecting ==> r == Some(StatusButton("Connecting...", Secondary, true, false))
    ensures c == Disconnected ==> r == Some(StatusButton("Reconnect", Warning, false, true))
    ensures c == Loaded ==> r == Some(StatusButton("Syncing...", Secondary, true, false))
  {
    match c
    case Reconnecting => Some(StatusButton("Connecting...", Secondary, true, false))
    case Disconnected => Some(StatusButton("Reconnect", Warning, false, true))
    case Loaded => Some(StatusButton("Syncing...", Secondary, true, false))
    case _ => None
  }

  /** Different connection states never show the same status button. */
  lemma StatusControlIdentifiesState(a: ConnState, b: ConnState)
    requires StatusControl(a).Some? && StatusControl(a) == StatusControl(b)
    ensures a == b
  {
  }

  /** The top bar controls: a separator, the status button if any, then the three panel buttons. */
  function TopbarControls(c: ConnState, mode: ContextMode): (r: seq<TopbarControl>)
    ensures |r| == if StatusControl(c).Some? then 5 else 4
    ensures r[0] == Separator
    ensures r[|r| - 3..] == [MoreActions, CommentToggle(mode == CommentPanel), ContextToggle(mode == ContextPanel)]
    ensures StatusControl(c).Some? ==> r[1] == StatusControl(c).value
    ensures forall i :: 0 <= i < |r| && r[i].StatusButton? ==> i == 1 && Some(r[i]) == StatusControl(c)
  {
    var status := if StatusControl(c).Some? then [StatusControl(c).value] else [];
    [Separator] + status + [MoreActions, CommentToggle(mode == CommentPanel), ContextToggle(mode == ContextPanel)]
  }

  /** The comment and context buttons: pressing the shown panel's button hides it, any other shows its panel. */
  function ToggleContextMode(current: ContextMode, target: ContextMode): (r: ContextMode)
    requires target != HiddenPanel
    ensures current == target ==> r == HiddenPanel
    ensures current != target ==> r == target
  {
    if current == target then HiddenPanel else target
  }

  /** Pressing the same button twice from a hidden panel returns to it. */
  lemma ToggleContextModeTwice(target: ContextMode)
    requires target != HiddenPanel
    ensures ToggleContextMode(ToggleContextMode(HiddenPanel, target), target) == HiddenPanel
  {
  }

  // ---------------------------------------------------------------------
  // The initial-load latch

  /**
    `initialLoadDone` after one connection-state change: set once the state
    is `synced` or `loaded`, and never cleared. The page shows its loading
    view until it is set.
   */
  function LatchStep(done: bool, c: ConnState): (r: bool)
    ensures done ==> r
    ensures r && !done <==> !done && (c == Synced || c == Loaded)
  {
    done || c == Synced || c == Loaded
  }

  /** The latch after a run of connection states. */
  function LatchRun(done: bool, cs: seq<ConnState>): bool
    decreases |cs|
  {
    if |cs| == 0 then done else LatchRun(LatchStep(done, cs[0]), cs[1..])
  }

  /** Once set, the latch stays set whatever states follow. */
  lemma {:induction false} LatchNeverResets(cs: seq<ConnState>)
    ensures LatchRun(true, cs)
  {
    if |cs| > 0 {
      LatchNeverResets(cs[1..]);
    }
  }

  /** From a fresh page, the loading view ends iff the connection was ever loaded or synced. */
  lemma {:induction false} LatchSetIffLoadedOnce(cs: seq<ConnState>)
    ensures LatchRun(false, cs) <==> exists i :: 0 <= i < |cs| && (cs[i] == Synced || cs[i] == Loaded)
  {
    if |cs| > 0 {
      if cs[0] == Synced || cs[0] == Loaded {
        LatchNeverResets(cs[1..]);
      } else {
        LatchSetIffLoadedOnce(cs[1..]);
        if exists i :: 0 <= i < |cs| && (cs[i] == Synced || cs[i] == Loaded) {
          var i :| 0 <= i < |cs| && (cs[i] == Synced || cs[i] == Loaded);
          assert cs[1..][i - 1] == cs[i];
        }
        if exists i :: 0 <= i < |cs[1..]| && (cs[1..][i] == Synced || cs[1..][i] == Loaded) {
          var i :| 0 <= i < |cs[1..]| && (cs[1..][i] == Synced || cs[1..][i] == Loaded);
          assert cs[i + 1] == cs[1..][i];
        }
      }
    }
  }
}
