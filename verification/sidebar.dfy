/**
  The sidebar of the application shell (Application.tsx): the toggle rule of
  its panels and pop-overs, the timeline (sorting the app events oldest
  first, collecting the documents named by the first of them, then keeping
  the most recently updated few), the space rows, and the toolbar rows.
 */
module Sidebar {
  import opened Common
  import opened Users

  /** The sidebar panels the shell opens. */
  datatype SidebarState = TreePanel | SearchPanel | TimelinePanel | MembersPanel | SettingsPanel

  /** The pop-overs of the toolbar. */
  datatype PopOver = SpacesPopOver | NotificationsPopOver

  /**
    `prev === s ? undefined : s`: asking for the panel that is already open
    closes it; asking for any other panel opens that one instead.
   */
  function Toggle<S(==)>(prev: Option<S>, s: S): (r: Option<S>)
    ensures r.None? <==> prev == Some(s)
    ensures r.Some? ==> r.value == s
  {
    if prev == Some(s) then None else Some(s)
  }

  /**
    Two requests for the same panel restore the state unless another panel
    was open, which the pair closes.
   */
  lemma ToggleTwice<S>(prev: Option<S>, s: S)
    ensures Toggle(Toggle(prev, s), s) == if prev == Some(s) then Some(s) else None
  {
  }

  // ---------------------------------------------------------------------
  // Timeline

  /** An app event: its creation time (as an ordered stamp) and its `data.resource` when that is a string. */
  datatype AppEvent = AppEvent(createdAt: int, resource: Option<string>)

  predicate OldestFirst(events: seq<AppEvent>)
  {
    forall i, j :: 0 <= i < j < |events| ==> events[i].createdAt <= events[j].createdAt
  }

  /** The head of an oldest-first list is at least as old as all of it. */
  lemma HeadIsOldest(events: seq<AppEvent>)
    requires OldestFirst(events)
    ensures |events| > 0 ==> forall x :: x in events ==> events[0].createdAt <= x.createdAt
  {
    forall x | x in events ensures events[0].createdAt <= x.createdAt {
      var k :| 0 <= k < |events| && events[k] == x;
      if k > 0 {
        assert events[0].createdAt <= events[k].createdAt;
      }
    }
  }

  /** An event no later than every event of an oldest-first list can go in front of it. */
  lemma OldestFirstCons(h: AppEvent, t: seq<AppEvent>)
    requires OldestFirst(t)
    requires forall x :: x in t ==> h.createdAt <= x.createdAt
    ensures OldestFirst([h] + t)
  {
    var r := [h] + t;
    forall i, j | 0 <= i < j < |r| ensures r[i].createdAt <= r[j].createdAt {
      assert r[j] == t[j - 1];
      if i == 0 {
        assert r[j] in t;
      } else {
        assert r[i] == t[i - 1];
      }
    }
  }

  /** `e` placed in the oldest-first list `s` in front of the first event created after it. */
  function InsertByTime(e: AppEvent, s: seq<AppEvent>): (r: seq<AppEvent>)
    requires OldestFirst(s)
    ensures OldestFirst(r)
    ensures multiset(r) == multiset(s) + multiset{e}
    ensures forall x :: x in r ==> x == e || x in s
  {
    HeadIsOldest(s);
    if |s| == 0 || e.createdAt <= s[0].createdAt then
      OldestFirstCons(e, s);
      [e] + s
    else
      var rest := InsertByTime(e, s[1..]);
      InsertByTimeStep(e, s, rest);
      [s[0]] + rest
  }

  /** The recursive case of `InsertByTime`: the head of `s` stays in front of the insertion into its tail. */
  lemma InsertByTimeStep(e: AppEvent, s: seq<AppEvent>, rest: seq<AppEvent>)
    requires OldestFirst(s) && |s| > 0 && s[0].createdAt < e.createdAt
    requires OldestFirst(rest)
    requires multiset(rest) == multiset(s[1..]) + multiset{e}
    requires forall x :: x in rest ==> x == e || x in s[1..]
    ensures OldestFirst([s[0]] + rest)
    ensures multiset([s[0]] + rest) == multiset(s) + multiset{e}
    ensures forall x :: x in [s[0]] + rest ==> x == e || x in s
  {
    HeadIsOldest(s);
    assert s == [s[0]] + s[1..];
    assert forall x :: x in rest ==> s[0].createdAt <= x.createdAt;
    OldestFirstCons(s[0], rest);
  }

  /** The events sorted by creation time, oldest first (`compareAsc`); a permutation of the input. */
  function SortOldestFirst(events: seq<AppEvent>): (r: seq<AppEvent>)
    ensures OldestFirst(r)
    ensures multiset(r) == multiset(events)
  {
    if |events| == 0 then []
    else
      assert events == [events[0]] + events[1..];
      InsertByTime(events[0], SortOldestFirst(events[1..]))
  }

  /** The head revision of a document: when it was made (as an ordered stamp) and by whom. */
  datatype Head = Head(created: int, creators: Option<seq<User>>)

  datatype Doc = Doc(id: Id, title: string, emoji: Option<string>, head: Option<Head>, updatedAt: int)

  /** The document an event names, if it names one that is loaded. */
  function EventDoc(e: AppEvent, docs: map<Id, Doc>, originalId: string -> Id): Option<Doc>
  {
    if e.resource.Some? && originalId(e.resource.value) in docs then Some(docs[originalId(e.resource.value)])
    else None
  }

  /** All documents named by the events, in event order: the timeline before it is cut off. */
  function Matched(events: seq<AppEvent>, docs: map<Id, Doc>, originalId: string -> Id): (r: seq<Doc>)
    ensures |r| <= |events|
    ensures forall d :: d in r ==> d in docs.Values
  {
    if |events| == 0 then []
    else
      var here := EventDoc(events[0], docs, originalId);
      (if here.Some? then [here.value] else []) + Matched(events[1..], docs, originalId)
  }

  lemma {:induction false} MatchedConcat(a: seq<AppEvent>, b: seq<AppEvent>, docs: map<Id, Doc>, originalId: string -> Id)
    ensures Matched(a + b, docs, originalId) == Matched(a, docs, originalId) + Matched(b, docs, originalId)
  {
    if |a| == 0 {
      assert a + b == b;
    } else {
      var here := EventDoc(a[0], docs, originalId);
      var front := if here.Some? then [here.value] else [];
      assert (a + b)[0] == a[0];
      assert (a + b)[1..] == a[1..] + b;
      assert Matched(a + b, docs, originalId) == front + Matched(a[1..] + b, docs, originalId);
      MatchedConcat(a[1..], b, docs, originalId);
      assert Matched(a, docs, originalId) == front + Matched(a[1..], docs, originalId);
    }
  }

  /** The most documents the timeline collects: the loop stops once `count++ > 20` holds. */
  const TimelineCollectLimit: nat := 22

  /**
    The timeline collection loop: events without a string resource, or naming
    a document that is not loaded, are skipped; the loop stops after the
    document that makes the check `count++ > 20` true, i.e. the 22nd one.
   */
  method CollectTimelineDocs(events: seq<AppEvent>, docs: map<Id, Doc>, originalId: string -> Id)
    returns (collected: seq<Doc>)
    ensures var all := Matched(events, docs, originalId);
      collected == all[..Min(|all|, TimelineCollectLimit)]
    ensures |collected| <= TimelineCollectLimit
  {
    collected := [];
    var count := 0;
    var i := 0;
    while i < |events|
      invariant 0 <= i <= |events|
      invariant collected == Matched(events[..i], docs, originalId)
      invariant count == |collected| <= TimelineCollectLimit - 1
    {
      var e := events[i];
      MatchedStep(events, i, docs, originalId);
      if e.resource.None? {
        i := i + 1;
        continue;
      }
      var key := originalId(e.resource.value);
      if key in docs {
        collected := collected + [docs[key]];
        var before := count;
        count := count + 1;
        if before > 20 {
          MatchedPrefix(events, i + 1, docs, originalId);
          return;
        }
      }
      i := i + 1;
    }
    assert events[..i] == events;
  }

  /** Matching one more event appends that event's document, if it names a loaded one. */
  lemma MatchedStep(events: seq<AppEvent>, i: nat, docs: map<Id, Doc>, originalId: string -> Id)
    requires i < |events|
    ensures var here := EventDoc(events[i], docs, originalId);
      Matched(events[..i + 1], docs, originalId)
      == Matched(events[..i], docs, originalId) + (if here.Some? then [here.value] else [])
  {
    assert events[..i + 1] == events[..i] + [events[i]];
    MatchedConcat(events[..i], [events[i]], docs, originalId);
  }

  /** The documents matched by a prefix of the events are a prefix of all matched documents. */
  lemma MatchedPrefix(events: seq<AppEvent>, i: nat, docs: map<Id, Doc>, originalId: string -> Id)
    requires i <= |events|
    ensures var front := Matched(events[..i], docs, originalId);
      var all := Matched(events, docs, originalId);
      |front| <= |all| && all[..|front|] == front
  {
    assert events[..i] + events[i..] == events;
    MatchedConcat(events[..i], events[i..], docs, originalId);
  }

  /** When the timeline entry was last updated: the head revision's time, else the document's. */
  function LastUpdated(d: Doc): int
  {
    if d.head.Some? then d.head.value.created else d.updatedAt
  }

  predicate NewestFirst(s: seq<Doc>)
  {
    forall i, j :: 0 <= i < j < |s| ==> LastUpdated(s[i]) >= LastUpdated(s[j])
  }

  /** The head of a newest-first list is at least as new as all of it. */
  lemma HeadIsNewest(s: seq<Doc>)
    requires NewestFirst(s)
    ensures |s| > 0 ==> forall x :: x in s ==> LastUpdated(x) <= LastUpdated(s[0])
  {
    forall x | x in s ensures LastUpdated(x) <= LastUpdated(s[0]) {
      var k :| 0 <= k < |s| && s[k] == x;
      if k > 0 {
        assert LastUpdated(s[0]) >= LastUpdated(s[k]);
      }
    }
  }

  /** `d` placed in the newest-first list `s` in front of the first entry not newer than it. */
  function InsertByDate(d: Doc, s: seq<Doc>): (r: seq<Doc>)
    requires NewestFirst(s)
    ensures NewestFirst(r)
    ensures multiset(r) == multiset(s) + multiset{d}
    ensures forall x :: x in r ==> x == d || x in s
  {
    HeadIsNewest(s);
    if |s| == 0 || LastUpdated(d) >= LastUpdated(s[0]) then
      NewestFirstCons(d, s);
      [d] + s
    else
      var rest := InsertByDate(d, s[1..]);
      InsertByDateStep(d, s, rest);
      [s[0]] + rest
  }

  /** The recursive case of `InsertByDate`: the head of `s` stays in front of the insertion into its tail. */
  lemma InsertByDateStep(d: Doc, s: seq<Doc>, rest: seq<Doc>)
    requires NewestFirst(s) && |s| > 0 && LastUpdated(d) < LastUpdated(s[0])
    requires NewestFirst(rest)
    requires multiset(rest) == multiset(s[1..]) + multiset{d}
    requires forall x :: x in rest ==> x == d || x in s[1..]
    ensures NewestFirst([s[0]] + rest)
    ensures multiset([s[0]] + rest) == multiset(s) + multiset{d}
    ensures forall x :: x in [s[0]] + rest ==> x == d || x in s
  {
    HeadIsNewest(s);
    assert s == [s[0]] + s[1..];
    assert forall x :: x in rest ==> LastUpdated(x) <= LastUpdated(s[0]);
    NewestFirstCons(s[0], rest);
  }

  /** A document at least as new as every document of a newest-first list can go in front of it. */
  lemma NewestFirstCons(h: Doc, t: seq<Doc>)
    requires NewestFirst(t)
    requires forall x :: x in t ==> LastUpdated(x) <= LastUpdated(h)
    ensures NewestFirst([h] + t)
  {
    var r := [h] + t;
    forall i, j | 0 <= i < j < |r| ensures LastUpdated(r[i]) >= LastUpdated(r[j]) {
      assert r[j] == t[j - 1];
      if i == 0 {
        assert r[j] in t;
      } else {
        assert r[i] == t[i - 1];
      }
    }
  }

  /** A prefix of a newest-first list is newest first. */
  lemma NewestFirstPrefix(s: seq<Doc>, k: nat)
    requires NewestFirst(s) && k <= |s|
    ensures NewestFirst(s[..k])
  {
    var p := s[..k];
    forall i, j | 0 <= i < j < |p| ensures LastUpdated(p[i]) >= LastUpdated(p[j]) {
      assert p[i] == s[i] && p[j] == s[j];
    }
  }

  /** The documents sorted newest first; a permutation of the input. */
  function SortNewestFirst(docs: seq<Doc>): (r: seq<Doc>)
    ensures NewestFirst(r)
    ensures multiset(r) == multiset(docs)
  {
    if |docs| == 0 then []
    else
      assert docs == [docs[0]] + docs[1..];
      InsertByDate(docs[0], SortNewestFirst(docs[1..]))
  }

  /** A timeline row. */
  datatype TimelineItem = TimelineItem(id: Id, title: string, emoji: Option<string>, lastUpdated: int, lastUpdatedBy: seq<Id>)

  /** `ids` lists the ids of `users`, in order. */
  predicate IdsOf(ids: seq<Id>, users: seq<User>)
  {
    |ids| == |users| && forall i :: 0 <= i < |users| ==> ids[i] == users[i].id
  }

  /** The row of one document: its head revision's creators as the editors, none without a head. */
  function ItemOf(d: Doc): (item: TimelineItem)
    ensures item.id == d.id && item.title == d.title && item.emoji == d.emoji
    ensures item.lastUpdated == LastUpdated(d)
    ensures d.head.None? || d.head.value.creators.None? ==> item.lastUpdatedBy == []
    ensures d.head.Some? && d.head.value.creators.Some? ==> IdsOf(item.lastUpdatedBy, d.head.value.creators.value)
  {
    var creators := if d.head.Some? && d.head.value.creators.Some? then d.head.value.creators.value else [];
    TimelineItem(d.id, d.title, d.emoji, LastUpdated(d), seq(|creators|, i requires 0 <= i < |creators| => creators[i].id))
  }

  const DefaultTimelineLimit: nat := 10

  /** `item` is the row of one of `docs`. */
  predicate RowOfOneOf(item: TimelineItem, docs: seq<Doc>)
  {
    exists d :: d in docs && item == ItemOf(d)
  }

  /** `item` is the row of one of the loaded documents. */
  predicate RowOfLoaded(item: TimelineItem, docs: map<Id, Doc>)
  {
    exists d :: d in docs.Values && item == ItemOf(d)
  }

  /** The newest `limit` documents, newest first. */
  function NewestDocs(docs: seq<Doc>, limit: nat): (kept: seq<Doc>)
    ensures |kept| == Min(limit, |docs|)
    ensures NewestFirst(kept)
    ensures multiset(kept) <= multiset(docs)
    ensures forall i :: 0 <= i < |kept| ==> kept[i] in docs
  {
    var sorted := SortNewestFirst(docs);
    assert |sorted| == |docs| by {
      assert |multiset(sorted)| == |multiset(docs)|;
    }
    var k := Min(limit, |docs|);
    PrefixSubMultiset(sorted, k);
    SubMultisetMembers(sorted[..k], docs);
    NewestFirstPrefix(sorted, k);
    sorted[..k]
  }

  /** No document left out of the newest ones is newer than the oldest one kept. */
  lemma NewestDocsKeepsNewest(docs: seq<Doc>, limit: nat, d: Doc)
    requires d in docs && limit > 0
    ensures var kept := NewestDocs(docs, limit);
      |kept| > 0 && (d in kept || LastUpdated(d) <= LastUpdated(kept[|kept| - 1]))
  {
    var sorted := SortNewestFirst(docs);
    var kept := NewestDocs(docs, limit);
    var k := |kept|;
    assert |sorted| == |docs| by {
      assert |multiset(sorted)| == |multiset(docs)|;
    }
    assert kept == sorted[..k];
    assert d in multiset(sorted);
    var j :| 0 <= j < |sorted| && sorted[j] == d;
    if j < k {
      assert kept[j] == d;
    } else {
      assert LastUpdated(sorted[k - 1]) >= LastUpdated(sorted[j]);
    }
  }

  /**
    `mapTimelineItems`: no rows without a team; otherwise the documents
    newest first, cut to `limit` rows.
   */
  function TimelineItems(docs: seq<Doc>, team: Option<Id>, limit: nat): (r: seq<TimelineItem>)
    ensures team.None? ==> r == []
    ensures team.Some? ==> |r| == Min(limit, |docs|)
    ensures forall i, j :: 0 <= i < j < |r| ==> r[i].lastUpdated >= r[j].lastUpdated
    ensures forall i :: 0 <= i < |r| ==> RowOfOneOf(r[i], docs)
    ensures team.Some? ==> RowsOf(r, NewestDocs(docs, limit))
  {
    if team.None? then []
    else
      var kept := NewestDocs(docs, limit);
      var r := seq(|kept|, i requires 0 <= i < |kept| => ItemOf(kept[i]));
      assert forall i :: 0 <= i < |r| ==> kept[i] in docs && r[i] == ItemOf(kept[i]);
      assert forall i :: 0 <= i < |r| ==> RowOfOneOf(r[i], docs);
      r
  }

  /** `rows` are the rows of `kept`, one for one and in order. */
  predicate RowsOf(rows: seq<TimelineItem>, kept: seq<Doc>)
  {
    |rows| == |kept| && forall i :: 0 <= i < |rows| ==> rows[i] == ItemOf(kept[i])
  }

  /** The rows of a list that keeps `d`, or something no older than it, keep its row or something no older. */
  lemma RowsKeepNewest(rows: seq<TimelineItem>, kept: seq<Doc>, d: Doc)
    requires RowsOf(rows, kept) && |kept| > 0
    requires d in kept || LastUpdated(d) <= LastUpdated(kept[|kept| - 1])
    ensures |rows| > 0 && (ItemOf(d) in rows || LastUpdated(d) <= rows[|rows| - 1].lastUpdated)
  {
    if d in kept {
      var j :| 0 <= j < |kept| && kept[j] == d;
      assert rows[j] == ItemOf(d);
    } else {
      assert rows[|rows| - 1] == ItemOf(kept[|kept| - 1]);
    }
  }

  /** No document left out of the timeline is newer than the oldest row kept. */
  lemma TimelineKeepsNewest(docs: seq<Doc>, team: Id, limit: nat, d: Doc)
    requires d in docs && limit > 0
    ensures var r := TimelineItems(docs, Some(team), limit);
      |r| > 0 && (ItemOf(d) in r || LastUpdated(d) <= r[|r| - 1].lastUpdated)
  {
    NewestDocsKeepsNewest(docs, limit, d);
    RowsKeepNewest(TimelineItems(docs, Some(team), limit), NewestDocs(docs, limit), d);
  }

  lemma CollectedAreLoaded(events: seq<AppEvent>, docs: map<Id, Doc>, originalId: string -> Id, collected: seq<Doc>)
    requires var all := Matched(events, docs, originalId); collected == all[..Min(|all|, TimelineCollectLimit)]
    ensures forall d :: d in collected ==> d in docs.Values
  {
    var all := Matched(events, docs, originalId);
    forall d | d in collected ensures d in docs.Values {
      var k :| 0 <= k < |collected| && collected[k] == d;
      assert all[k] == d;
    }
  }

  /**
    The rows a timeline should show: those of the ten most recently updated
    among the first 22 documents matched by the events taken oldest first.
   */
  predicate TimelineOf(rows: seq<TimelineItem>, events: seq<AppEvent>, docs: map<Id, Doc>, originalId: string -> Id)
  {
    var all := Matched(SortOldestFirst(events), docs, originalId);
    RowsOf(rows, NewestDocs(all[..Min(|all|, TimelineCollectLimit)], DefaultTimelineLimit))
  }

  /**
    The timeline rows of the sidebar: sort the events oldest first, collect
    the documents of the first 22 that name a loaded one, then keep the ten
    most recently updated of those.
   */
  method TimelineRows(events: seq<AppEvent>, docs: map<Id, Doc>, originalId: string -> Id, team: Option<Id>)
    returns (rows: seq<TimelineItem>)
    ensures team.None? ==> rows == []
    ensures team.Some? ==>
      |rows| == Min(DefaultTimelineLimit, Min(|Matched(SortOldestFirst(events), docs, originalId)|, TimelineCollectLimit))
    ensures team.Some? ==> TimelineOf(rows, events, docs, originalId)
    ensures |rows| <= DefaultTimelineLimit
    ensures forall i :: 0 <= i < |rows| ==> RowOfLoaded(rows[i], docs)
  {
    var ordered := SortOldestFirst(events);
    var collected := CollectTimelineDocs(ordered, docs, originalId);
    rows := TimelineItems(collected, team, DefaultTimelineLimit);
    CollectedAreLoaded(ordered, docs, originalId, collected);
    forall i | 0 <= i < |rows| ensures RowOfLoaded(rows[i], docs) {
      assert RowOfOneOf(rows[i], collected);
      var d :| d in collected && rows[i] == ItemOf(d);
      assert d in docs.Values;
    }
  }

  // ---------------------------------------------------------------------
  // Spaces

  datatype Team = Team(id: Id, name: string)

  datatype Invite = Invite(id: Id, team: Team)

  /** A row of the spaces pop-over; an invitation row carries the inviting team's id. */
  datatype SpaceRow = SpaceRow(caption: string, active: bool, notificationCount: Option<int>, invitedTo: Option<Id>)

  function TeamRow(t: Team, counts: map<Id, int>, current: Option<Team>): SpaceRow
  {
    SpaceRow(t.name, current.Some? && current.value.id == t.id,
             if t.id in counts then Some(counts[t.id]) else None, None)
  }

  function InviteRow(inv: Invite): SpaceRow
  {
    SpaceRow(inv.team.name + " (invited)", false, None, Some(inv.team.id))
  }

  /**
    `mapSpaces`: one row per team, in order, active for the current team,
    then one row per pending invitation, labelled `<team name> (invited)`.
   */
  function SpaceRows(teams: seq<Team>, invites: seq<Invite>, counts: map<Id, int>, current: Option<Team>): (r: seq<SpaceRow>)
    ensures |r| == |teams| + |invites|
    ensures forall i :: 0 <= i < |teams| ==>
      r[i].caption == teams[i].name && r[i].invitedTo.None?
      && (r[i].active <==> current.Some? && current.value.id == teams[i].id)
      && (r[i].notificationCount.Some? <==> teams[i].id in counts)
      && (teams[i].id in counts ==> r[i].notificationCount == Some(counts[teams[i].id]))
    ensures forall j :: 0 <= j < |invites| ==>
      var row := r[|teams| + j];
      !row.active && row.invitedTo == Some(invites[j].team.id) && row.notificationCount.None?
      && row.caption == invites[j].team.name + " (invited)"
  {
    seq(|teams|, i requires 0 <= i < |teams| => TeamRow(teams[i], counts, current))
    + seq(|invites|, j requires 0 <= j < |invites| => InviteRow(invites[j]))
  }

  /** The current team's space row shows the same count the notifications badge is computed from. */
  lemma SpaceCountIsBadgeCount(teams: seq<Team>, invites: seq<Invite>, counts: map<Id, int>, i: nat)
    requires i < |teams|
    ensures SpaceRows(teams, invites, counts, Some(teams[i]))[i].notificationCount == NewNotifications(Some(teams[i]), counts)
  {
  }

  /** A row is active iff it is the row of the current team; with distinct team ids at most one is. */
  lemma ActiveSpaceIsCurrentTeam(teams: seq<Team>, invites: seq<Invite>, counts: map<Id, int>, current: Option<Team>)
    requires forall i, j :: 0 <= i < j < |teams| ==> teams[i].id != teams[j].id
    ensures var r := SpaceRows(teams, invites, counts, current);
      forall i, j :: 0 <= i < j < |r| ==> !(r[i].active && r[j].active)
    ensures var r := SpaceRows(teams, invites, counts, current);
      (exists i :: 0 <= i < |r| && r[i].active) <==>
      current.Some? && exists i :: 0 <= i < |teams| && teams[i].id == current.value.id
  {
    var r := SpaceRows(teams, invites, counts, current);
    if current.Some? && exists i :: 0 <= i < |teams| && teams[i].id == current.value.id {
      var i :| 0 <= i < |teams| && teams[i].id == current.value.id;
      assert r[i].active;
    }
  }

  // ---------------------------------------------------------------------
  // Toolbar

  datatype ToolbarKind =
    | SpacesRow | TreeRow | SearchRow | TimelineRow | NotificationsRow
    | DiscountRow | ImportRow | MembersRow | SettingsRow

  /** A toolbar row: what it is, whether it is highlighted, whether it sits at the bottom, whether it shows a badge. */
  datatype ToolbarRow = ToolbarRow(kind: ToolbarKind, active: bool, bottom: bool, badge: bool)

  /** Which open panel or pop-over highlights a row. */
  predicate RowActive(kind: ToolbarKind, popOver: Option<PopOver>, sidebar: Option<SidebarState>)
  {
    match kind
    case SpacesRow => popOver == Some(SpacesPopOver)
    case TreeRow => sidebar == Some(TreePanel)
    case SearchRow => sidebar == Some(SearchPanel)
    case TimelineRow => sidebar == Some(TimelinePanel)
    case NotificationsRow => popOver == Some(NotificationsPopOver)
    case MembersRow => sidebar == Some(MembersPanel)
    case SettingsRow => sidebar == Some(SettingsPanel)
    case _ => false
  }

  /** The rows placed at the bottom of the toolbar. */
  predicate AtBottom(kind: ToolbarKind)
  {
    kind.DiscountRow? || kind.ImportRow? || kind.MembersRow? || kind.SettingsRow?
  }

  /**
    The new-notification count of the current team: `counts[team.id]`, 0
    without a team, and `undefined` (`None`) for a team with no known count.
   */
  function NewNotifications(team: Option<Team>, counts: map<Id, int>): (n: Option<int>)
    ensures team.None? ==> n == Some(0)
    ensures team.Some? ==> (n.Some? <==> team.value.id in counts)
    ensures team.Some? && team.value.id in counts ==> n == Some(counts[team.value.id])
  {
    if team.None? then Some(0)
    else if team.value.id in counts then Some(counts[team.value.id])
    else None
  }

  /** The row of one kind; only the notifications row carries the badge. */
  function RowOf(kind: ToolbarKind, popOver: Option<PopOver>, sidebar: Option<SidebarState>, badge: bool): (row: ToolbarRow)
    ensures row.kind == kind && row.bottom == AtBottom(kind)
    ensures row.active == RowActive(kind, popOver, sidebar)
    ensures row.badge == (kind == NotificationsRow && badge)
  {
    ToolbarRow(kind, RowActive(kind, popOver, sidebar), AtBottom(kind), kind == NotificationsRow && badge)
  }

  /**
    The place of each row in `mapToolbarRows`: spaces, tree, search,
    timeline, notifications, then discount, import, members and settings.
   */
  function Rank(kind: ToolbarKind): nat
  {
    match kind
    case SpacesRow => 0
    case TreeRow => 1
    case SearchRow => 2
    case TimelineRow => 3
    case NotificationsRow => 4
    case DiscountRow => 5
    case ImportRow => 6
    case MembersRow => 7
    case SettingsRow => 8
  }

  /**
    Which rows the toolbar has, in `Rank` order: the spaces row only with a
    team, the discount row only for an eligible team. With the length these
    pin the list down: the rows are distinct, so every other kind is present.
   */
  function ToolbarKinds(hasTeam: bool, discount: bool): (ks: seq<ToolbarKind>)
    ensures |ks| == 7 + (if hasTeam then 1 else 0) + (if hasTeam && discount then 1 else 0)
    ensures SpacesRow in ks <==> hasTeam
    ensures DiscountRow in ks <==> hasTeam && discount
    ensures forall i, j :: 0 <= i < j < |ks| ==> Rank(ks[i]) < Rank(ks[j])
    ensures forall i, j :: 0 <= i < j < |ks| && AtBottom(ks[i]) ==> AtBottom(ks[j])
  {
    if !hasTeam then
      [TreeRow, SearchRow, TimelineRow, NotificationsRow, ImportRow, MembersRow, SettingsRow]
    else if !discount then
      [SpacesRow, TreeRow, SearchRow, TimelineRow, NotificationsRow, ImportRow, MembersRow, SettingsRow]
    else
      [SpacesRow, TreeRow, SearchRow, TimelineRow, NotificationsRow, DiscountRow, ImportRow, MembersRow, SettingsRow]
  }

  /**
    `mapToolbarRows`: the spaces row when there is a team; tree, search,
    timeline and notifications; the discount row for an eligible team
    without a subscription; then import, members and settings at the bottom.
   */
  function ToolbarRows(popOver: Option<PopOver>, sidebar: Option<SidebarState>, team: Option<Team>,
                       hasSubscription: bool, discountEligible: bool, counts: map<Id, int>): (r: seq<ToolbarRow>)
    ensures |r| == 7 + (if team.Some? then 1 else 0) + (if team.Some? && !hasSubscription && discountEligible then 1 else 0)
    ensures (exists i :: 0 <= i < |r| && r[i].kind == SpacesRow) <==> team.Some?
    ensures (exists i :: 0 <= i < |r| && r[i].kind == DiscountRow) <==> team.Some? && !hasSubscription && discountEligible
    ensures forall i, j :: 0 <= i < j < |r| ==> Rank(r[i].kind) < Rank(r[j].kind)
    ensures forall i :: 0 <= i < |r| ==> r[i].kind == ToolbarKinds(team.Some?, !hasSubscription && discountEligible)[i]
    ensures forall i, j :: 0 <= i < j < |r| && r[i].bottom ==> r[j].bottom
    ensures forall i :: 0 <= i < |r| ==> r[i].bottom == AtBottom(r[i].kind)
    ensures forall i :: 0 <= i < |r| ==> (r[i].active <==> RowActive(r[i].kind, popOver, sidebar))
    ensures forall i :: 0 <= i < |r| ==>
      (r[i].badge <==> r[i].kind == NotificationsRow && var n := NewNotifications(team, counts); n.Some? && n.value != 0)
  {
    var n := NewNotifications(team, counts);
    var ks := ToolbarKinds(team.Some?, !hasSubscription && discountEligible);
    var r := RowsOfKinds(ks, popOver, sidebar, n.Some? && n.value != 0);
    KindsPresent(r, ks, SpacesRow);
    KindsPresent(r, ks, DiscountRow);
    r
  }

  /** One row per kind, in order. */
  function RowsOfKinds(ks: seq<ToolbarKind>, popOver: Option<PopOver>, sidebar: Option<SidebarState>, badge: bool): (r: seq<ToolbarRow>)
    ensures |r| == |ks|
    ensures forall i :: 0 <= i < |r| ==> r[i] == RowOf(ks[i], popOver, sidebar, badge)
  {
    seq(|ks|, i requires 0 <= i < |ks| => RowOf(ks[i], popOver, sidebar, badge))
  }

  /** A kind has a row exactly when it is one of the kinds the rows are made from. */
  lemma KindsPresent(r: seq<ToolbarRow>, ks: seq<ToolbarKind>, kind: ToolbarKind)
    requires |r| == |ks| && forall i :: 0 <= i < |r| ==> r[i].kind == ks[i]
    ensures (exists i :: 0 <= i < |r| && r[i].kind == kind) <==> kind in ks
  {
    if kind in ks {
      var i :| 0 <= i < |ks| && ks[i] == kind;
      assert r[i].kind == kind;
    }
  }

  /** The panel and pop-over state the toolbar drives. */
  datatype ShellState = ShellState(popOver: Option<PopOver>, sidebar: Option<SidebarState>)

  /**
    A click on a toolbar row: the tree, search and timeline rows toggle their
    panel; the spaces and notifications rows toggle their pop-over; the other
    rows open modals or settings and leave this state alone.
   */
  function ClickRow(kind: ToolbarKind, st: ShellState): (r: ShellState)
    ensures kind == TreeRow ==> r == ShellState(st.popOver, Toggle(st.sidebar, TreePanel))
    ensures kind == SearchRow ==> r == ShellState(st.popOver, Toggle(st.sidebar, SearchPanel))
    ensures kind == TimelineRow ==> r == ShellState(st.popOver, Toggle(st.sidebar, TimelinePanel))
    ensures kind == SpacesRow ==> r == ShellState(Toggle(st.popOver, SpacesPopOver), st.sidebar)
    ensures kind == NotificationsRow ==> r == ShellState(Toggle(st.popOver, NotificationsPopOver), st.sidebar)
    ensures kind !in {TreeRow, SearchRow, TimelineRow, SpacesRow, NotificationsRow} ==> r == st
  {
    match kind
    case TreeRow => st.(sidebar := Toggle(st.sidebar, TreePanel))
    case SearchRow => st.(sidebar := Toggle(st.sidebar, SearchPanel))
    case TimelineRow => st.(sidebar := Toggle(st.sidebar, TimelinePanel))
    case SpacesRow => st.(popOver := Toggle(st.popOver, SpacesPopOver))
    case NotificationsRow => st.(popOver := Toggle(st.popOver, NotificationsPopOver))
    case _ => st
  }

  /** Clicking a toggling row flips its own highlight. */
  lemma ClickFlipsHighlight(kind: ToolbarKind, st: ShellState)
    requires kind in {TreeRow, SearchRow, TimelineRow, SpacesRow, NotificationsRow}
    ensures var after := ClickRow(kind, st);
      RowActive(kind, after.popOver, after.sidebar) <==> !RowActive(kind, st.popOver, st.sidebar)
  {
  }
}
