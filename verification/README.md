# Boost Note cloud UI rules in Dafny

This project models the decision rules of four components of the Boost Note
cloud client and proves properties about them. The models drop the React
rendering, the network, the timers and the yjs CRDT.

- **Document page** (`DocPage/View.tsx`), module `DocView`:
  - the projection of comment threads onto highlight ranges of the live document;
  - the threads reported as outdated;
  - the permission-based normalisation of the comment state;
  - the highlight-click and new-range transitions;
  - the connection-state control of the top bar;
  - the initial-load latch;
  - the presence roster without the current user (module `Users`).
- **Comment panel** (`CommentManager.tsx`), module `Comments`:
  - the mode-tagged panel `State` and the `ModeTransition` requests;
  - the status counts;
  - the listed threads;
  - which controls each mode offers.
- **Application shell** (`Application.tsx`):
  - module `Search`: the sidebar search parser, which pulls the `--body` and `--title` flags out of a space-split input, and the blank-input guard of the debounced search;
  - module `Sidebar`: the toggle rule of sidebar panels and pop-overs, the bounded timeline collection, the sort-then-truncate timeline rows, the space rows and the toolbar rows.
- **Document information menu** (`DocContextMenu/index.tsx`), module `DocInfo`:
  - the folded contributor list, drawn only for a team that is not personal;
  - the "last permission wins" users map (module `Users`);
  - the guards and outcomes of the status, due-date and assignee updates.

Module `Common` holds `Option` and an order-preserving `Filter` with its
algebra. Each model is a set of pure functions over immutable datatypes.

The yjs resolver is a `Realtime` value with two fields:
- `encode: nat -> RelPos` stands for `createRelativePositionFromTypeIndex`;
- `resolve: RelPos -> Option<nat>` stands for `createAbsolutePositionFromRelativePosition`.

Dates are ordered integer stamps.

The search parser works on the input exactly as the code does:
- The search input is split on the single character `' '`. Runs of spaces inside the input become empty words, and the query keeps them. Trailing spaces are also kept.
- Only empty words that arrive while the query is still empty (leading spaces) are dropped.
- `Search.FlaglessInputIsKept` states this precisely: a flag-free input that does not start with a space comes back as its own query, character for character.

## Model

| member | source | states |
|---|---|---|
| Users.UsersMap | src/cloud/components/organisms/Topbar/Controls/ControlsContextMenu/DocContextMenu/index.tsx:97-101 | the keys are exactly the ids of the permission users, and each key maps to a user with that id |
| Users.UsersMapLastWins | src/cloud/components/organisms/Topbar/Controls/ControlsContextMenu/DocContextMenu/index.tsx:97-101 | for an id granted several times, the map holds the user of the last permission for it |
| Users.Refresh | src/cloud/components/organisms/DocPage/View.tsx:134-135 | `usersMap.get(id) \|\| user`: the permission user with the same id when there is one, the user itself otherwise |
| Users.RefreshKeepsId | src/cloud/components/organisms/DocPage/View.tsx:126-135 | refreshing against the users map never changes a user's id |
| Users.RefreshIdempotent | src/cloud/components/organisms/DocPage/View.tsx:126-135 | refreshing an already refreshed user changes nothing |
| Users.OtherUsers | src/cloud/components/organisms/DocPage/View.tsx:103-105 | a participant is kept iff it is connected and its id is not the current user's; no kept entry has that id |
| Users.OtherUsersKeepsOrder | src/cloud/components/organisms/DocPage/View.tsx:103-105 | the roster filter distributes over concatenation, so the order is kept |
| Users.OtherUsersWithoutMe | src/cloud/components/organisms/DocPage/View.tsx:103-105 | when the current user is not connected, the roster is returned unchanged |
| Comments.ThreadsOf | src/cloud/components/organisms/CommentManager.tsx:20-29 | a state holds a thread list in every mode except `list_loading` |
| Comments.Bucket | src/cloud/components/organisms/CommentManager.tsx:72-74 | a status bucket holds exactly the listed threads of that status |
| Comments.PartitionTotal | src/cloud/components/organisms/CommentManager.tsx:72-83 | the three bucket sizes add up to the length of the list |
| Comments.Counts | src/cloud/components/organisms/CommentManager.tsx:76-83 | `all` is 0 in `list_loading` and the list length otherwise; each status count is its bucket's size; `all` is the sum of the three |
| Comments.VisibleThreads | src/cloud/components/organisms/CommentManager.tsx:95-100 | a thread is listed iff it is in the list, passes the status filter and passes the list predicate if one is set |
| Comments.VisibleThreadsIsOneFilter | src/cloud/components/organisms/CommentManager.tsx:95-100 | the two-stage selection is one order-preserving filter of the list, so the result is a sub-sequence |
| Comments.InitialListShowsOpenThreads | src/cloud/components/organisms/CommentManager.tsx:71-100 | with the initial `open` status filter and no predicate, the list shows the open bucket |
| Comments.ControlsFor | src/cloud/components/organisms/CommentManager.tsx:131-144 | the reply input is offered iff the thread is open, and Reopen iff it is closed |
| Comments.ControlsExclusive | src/cloud/components/organisms/CommentManager.tsx:131-144 | a thread never offers both, and an outdated thread offers neither |
| Comments.HeaderFor | src/cloud/components/organisms/CommentManager.tsx:181-204 | back iff not in list mode or a predicate is set; the status filter only in list mode; the thread action only in thread mode |
| Comments.BackOnlyWhenItChangesSomething | src/cloud/components/organisms/CommentManager.tsx:181-185 | the back target, the unfiltered list, shows no back control, while every filtered list does |
| Comments.SubmitNewThread | src/cloud/components/organisms/CommentManager.tsx:154-156 | the create request carries the captured context and selection unchanged, plus the typed comment |
| Comments.ListIntentTransition | src/cloud/components/organisms/CommentManager.tsx:105-112 | selecting a thread requests thread mode for it; the new-thread button requests an empty new thread |
| DocView.ShownThreadId | src/cloud/components/organisms/DocPage/View.tsx:209-211 | a thread is shown exactly in thread mode, and it is the state's thread |
| DocView.CalculatePositions | src/cloud/components/organisms/DocPage/View.tsx:182-219 | the previous highlights are kept in `list_loading` or without a resolver; otherwise the highlights are the projection of the thread list; outdate requests are the tracked threads whose ends do not resolve to distinct indices, in list order, when synced, and none otherwise |
| DocView.ProjectionConcat | src/cloud/components/organisms/DocPage/View.tsx:187-219 | the projection distributes over concatenation, so highlights appear in thread-list order |
| DocView.ProjectionSound | src/cloud/components/organisms/DocPage/View.tsx:188-213 | every highlight comes from a listed thread that has a selection, is open, and whose ends both resolve to distinct indices |
| DocView.ProjectionOf | src/cloud/components/organisms/DocPage/View.tsx:205-211 | a highlight has the thread's id, the resolved anchor as start and the resolved head as end, and is active iff that thread is shown |
| DocView.ProjectionComplete | src/cloud/components/organisms/DocPage/View.tsx:188-213 | every open listed thread with two distinct resolved ends gets its highlight |
| DocView.ProjectionOnlyOpen | src/cloud/components/organisms/DocPage/View.tsx:204-213 | every highlight carries the id of an open listed thread |
| DocView.AtMostOneActive | src/cloud/components/organisms/DocPage/View.tsx:209-211 | with distinct thread ids, at most one highlight is active |
| DocView.ActiveMeansShown | src/cloud/components/organisms/DocPage/View.tsx:209-211 | a highlight is active iff its thread is the one shown |
| DocView.RefreshThread | src/cloud/components/organisms/DocPage/View.tsx:130-138 | only the `status.by` user changes, and it is refreshed against the users map (absent stays absent) |
| DocView.RefreshThreads | src/cloud/components/organisms/DocPage/View.tsx:130-138 | same length, and each thread is refreshed in place |
| DocView.RefreshComments | src/cloud/components/organisms/DocPage/View.tsx:151-154 | same length, and each comment differs only in its refreshed `user` |
| DocView.NormalizeState | src/cloud/components/organisms/DocPage/View.tsx:119-155 | identity in `list_loading` or without permissions; otherwise the mode is kept, and thread count, order and ids are kept; only `status.by` and, in thread mode, the comments' users are replaced by their permission users |
| DocView.NormalizeIdempotent | src/cloud/components/organisms/DocPage/View.tsx:119-155 | normalising twice gives the same state as normalising once |
| DocView.CommentClick | src/cloud/components/organisms/DocPage/View.tsx:252-262 | ignored exactly in `list_loading`; otherwise it opens the comment panel on a list whose predicate accepts a thread iff its id was clicked |
| DocView.ClickShowsClickedThreads | src/cloud/components/organisms/DocPage/View.tsx:252-262 | with all statuses shown, the list after a click holds exactly the listed threads whose ids were clicked |
| DocView.NewRangeThread | src/cloud/components/organisms/DocPage/View.tsx:160-180 | nothing without a resolver; otherwise the comment panel opens a new thread with the selected text as context and the encoded start and end as its selection |
| DocView.NewThreadPaintsSelection | src/cloud/components/organisms/DocPage/View.tsx:160-211 | round trip: an open thread created from a non-empty selection whose positions resolve back is highlighted exactly over that selection |
| DocView.EmptySelectionIsLost | src/cloud/components/organisms/DocPage/View.tsx:188-216 | a thread opened on an empty selection is never highlighted and is a candidate to be marked outdated |
| DocView.StatusControl | src/cloud/components/organisms/DocPage/View.tsx:358-408 | `reconnecting` gives a disabled "Connecting...", `disconnected` a "Reconnect" that reconnects, `loaded` a disabled "Syncing...", any other state no control |
| DocView.StatusControlIdentifiesState | src/cloud/components/organisms/DocPage/View.tsx:358-408 | different connection states never show the same control |
| DocView.TopbarControls | src/cloud/components/organisms/DocPage/View.tsx:355-433 | the separator, then the optional status control, then more-actions, the comment toggle and the context toggle, whose highlight follows the panel mode |
| DocView.ToggleContextMode | src/cloud/components/organisms/DocPage/View.tsx:416-432 | choosing the panel already open hides it; choosing another one opens it |
| DocView.ToggleContextModeTwice | src/cloud/components/organisms/DocPage/View.tsx:416-432 | opening a hidden panel and choosing it again hides it |
| DocView.LatchStep | src/cloud/components/organisms/DocPage/View.tsx:277-281 | the latch is never lowered, and it is raised exactly by `synced` or `loaded` |
| DocView.LatchNeverResets | src/cloud/components/organisms/DocPage/View.tsx:277-281 | once set, the latch stays set whatever states follow |
| DocView.LatchSetIffLoadedOnce | src/cloud/components/organisms/DocPage/View.tsx:277-281 | starting unset, the latch ends set iff some state was `synced` or `loaded` |
| Search.Split | src/cloud/components/Application.tsx:264-265 | `split(' ')` yields at least one piece, and no piece contains a space |
| Search.JoinSplit | src/cloud/components/Application.tsx:264-265 | joining the pieces with single spaces gives the input back |
| Search.SplitJoin | src/cloud/components/Application.tsx:264-265 | splitting the space-joined space-free words gives the words back |
| Search.ParseSearchQuery | src/cloud/components/Application.tsx:264-281 | the search reducer from `{query: ''}`: `body` iff `--body` is one of the space-separated tokens, `title` iff `--title` is, and the query is the other tokens after the leading empty ones, joined by single spaces |
| Search.AppendTerm | src/cloud/components/Application.tsx:276 | the first word becomes the query; later words follow the unchanged query after exactly one space, and the text after that space is the word |
| Search.DropLeadingEmpty | src/cloud/components/Application.tsx:276 | only leading empty words are removed, and the rest is a suffix starting with a non-empty word |
| Search.AppendAllNonEmpty | src/cloud/components/Application.tsx:276 | once the query is non-empty, the remaining words are joined on with single spaces |
| Search.AppendAllFromEmpty | src/cloud/components/Application.tsx:276 | from the empty query, the leading empty words vanish and the rest are joined with single spaces |
| Search.ParseTokensSplitsFlags | src/cloud/components/Application.tsx:264-281 | `body`/`title` become set iff their flag is among the tokens; the query receives every other token in order |
| Search.ParseCharacterized | src/cloud/components/Application.tsx:264-281 | from `{query: ''}`, the flags are set iff present, and the query is the non-flag tokens, without the leading empty ones, joined by single spaces |
| Search.RepeatedFlagIsIdempotent | src/cloud/components/Application.tsx:268-275 | giving a flag twice in a row parses like giving it once |
| Search.ParseDependsOnFlagPresence | src/cloud/components/Application.tsx:264-281 | token lists with the same words in the same order and the same flags present parse alike, however often and wherever the flags occur |
| Search.FlagsNeverInQuery | src/cloud/components/Application.tsx:268-276 | splitting the parsed query on spaces never yields `--body` or `--title` |
| Search.FlaglessInputIsKept | src/cloud/components/Application.tsx:264-279 | a flag-free input without a leading space is its own query, interior and trailing spaces included |
| Search.LeadingSpaceIgnored | src/cloud/components/Application.tsx:276 | a leading space does not change the parse |
| Search.ExampleParse | src/cloud/components/Application.tsx:264-281 | `--title hello world --body` parses to the query `hello world` with both flags set |
| Search.TrimStart | src/cloud/components/Application.tsx:256 | removes exactly the maximal prefix of ECMAScript whitespace |
| Search.TrimEnd | src/cloud/components/Application.tsx:256 | removes exactly the maximal suffix of ECMAScript whitespace |
| Search.Trim | src/cloud/components/Application.tsx:256 | `trim()`: the input with whitespace cut off at both ends and nothing else, so the result neither starts nor ends with whitespace |
| Search.TrimEmptyIffBlank | src/cloud/components/Application.tsx:256 | `trim()` is empty iff every character is whitespace |
| Search.DebouncedSearch | src/cloud/components/Application.tsx:255-284 | nothing is sent without a team or with a blank input; otherwise the parsed query goes to the history and is submitted for the team |
| Search.SearchSentIffNotBlank | src/cloud/components/Application.tsx:256-258 | with a team, a search is sent iff the input has a non-whitespace character |
| Sidebar.Toggle | src/cloud/components/Application.tsx:184-186 | requesting the open panel closes it; requesting any other opens that one |
| Sidebar.ToggleTwice | src/cloud/components/Application.tsx:184-186 | two requests for the same panel restore the state, unless another panel was open: the pair then leaves no panel open |
| Sidebar.InsertByTime | src/cloud/components/Application.tsx:290-292 | inserting into an oldest-first event list keeps it oldest first and adds exactly the new event |
| Sidebar.SortOldestFirst | src/cloud/components/Application.tsx:290-292 | the events ordered by creation time, oldest first, as a permutation of the input |
| Sidebar.Matched | src/cloud/components/Application.tsx:296-303 | the documents named by the events, at most one per event, all loaded documents |
| Sidebar.MatchedConcat | src/cloud/components/Application.tsx:296-303 | matching distributes over concatenation of the event list, so event order is kept |
| Sidebar.CollectTimelineDocs | src/cloud/components/Application.tsx:294-309 | walking the events in the order given, the loop collects the longest prefix of the matched documents that has at most 22 entries, skipping events without a string resource or a loaded document |
| Sidebar.CollectedAreLoaded | src/cloud/components/Application.tsx:301-303 | every collected document is a loaded one |
| Sidebar.InsertByDate | src/cloud/components/Application.tsx:572-579 | inserting into a newest-first list keeps it newest first and adds exactly the new document |
| Sidebar.SortNewestFirst | src/cloud/components/Application.tsx:572-579 | the result is newest first and a permutation of the input |
| Sidebar.ItemOf | src/cloud/components/Application.tsx:581-603 | a row keeps the document's id, title and emoji and the head revision's time (else the document's); its editors are the ids of the head's creators in order, and none without a head or creators |
| Sidebar.NewestDocs | src/cloud/components/Application.tsx:572-580 | `min(limit, n)` documents, newest first, taken from the input without repeating any document more often than it occurs there |
| Sidebar.NewestDocsKeepsNewest | src/cloud/components/Application.tsx:572-580 | with a positive limit something is kept, and every document is either kept or no newer than the oldest one kept |
| Sidebar.TimelineItems | src/cloud/components/Application.tsx:562-580 | no rows without a team; otherwise `min(limit, n)` rows, newest first, one for one the rows of the kept newest documents |
| Sidebar.TimelineKeepsNewest | src/cloud/components/Application.tsx:572-580 | with a team and a positive limit the timeline is non-empty, and every document either has its row in it or is no newer than the oldest row shown |
| Sidebar.TimelineRows | src/cloud/components/Application.tsx:289-312 | with a team, as many rows as the smallest of 10, 22 and the number of matched documents after sorting the events oldest first; none without a team; each the row of a loaded document; the rows are exactly those of the ten most recently updated among the first 22 matched documents of the sorted events |
| Sidebar.SpaceRows | src/cloud/components/Application.tsx:798-843 | one row per team in order, active iff it is the current team, with the team's count exactly when one is known; then one inactive row per invite, labelled `<team> (invited)`, without a notification count |
| Sidebar.SpaceCountIsBadgeCount | src/cloud/components/Application.tsx:811 | the current team's space row (`counts[globalTeam.id]`) shows the same count the notifications badge is computed from |
| Sidebar.ActiveSpaceIsCurrentTeam | src/cloud/components/Application.tsx:806-812 | with distinct team ids, at most one row is active, and one is iff the current team is among the teams |
| Sidebar.RowOf | src/cloud/components/Application.tsx:715-795 | a toolbar row is highlighted by its own panel or pop-over, sits at the bottom iff it is discount, import, members or settings, and only the notifications row shows the badge |
| Sidebar.NewNotifications | src/cloud/components/Application.tsx:207 | 0 without a team; with a team, the team's count when one is known and none otherwise |
| Sidebar.ToolbarKinds | src/cloud/components/Application.tsx:714-795 | seven fixed rows, plus spaces with a team and discount for an eligible team without a subscription, in the order spaces, tree, search, timeline, notifications, discount, import, members, settings |
| Sidebar.ToolbarRows | src/cloud/components/Application.tsx:702-795 | the rows in the order of `ToolbarKinds`: spaces iff a team, discount iff an eligible team without a subscription, exactly the discount, import, members and settings rows at the bottom and after the others, highlight by the open panel, badge iff new notifications |
| Sidebar.ClickRow | src/cloud/components/Application.tsx:715-762 | tree, search and timeline toggle their panel by the toggle rule; spaces and notifications toggle their pop-over; nothing else changes |
| Sidebar.ClickFlipsHighlight | src/cloud/components/Application.tsx:715-762 | clicking a toggling row flips its own highlight |
| DocInfo.ContributorsOf | src/cloud/components/organisms/Topbar/Controls/ControlsContextMenu/DocContextMenu/index.tsx:106-118 | shown plus sliced is the total and the shown ones are a prefix; folded with more than 5, exactly 5 are shown; otherwise all are shown and none sliced |
| DocInfo.OverflowToggle | src/cloud/components/organisms/Topbar/Controls/ControlsContextMenu/DocContextMenu/index.tsx:471-498 | offered iff the team is not personal and there are more than 5 contributors; `+n` while folded, with n the hidden count, else `-` |
| DocInfo.OverflowToggleRoundTrip | src/cloud/components/organisms/Topbar/Controls/ControlsContextMenu/DocContextMenu/index.tsx:491-498 | the folded list plus the hidden tail is the whole list, and unfolding shows everybody behind a `-` toggle |
| DocInfo.ShownContributors | src/cloud/components/organisms/Topbar/Controls/ControlsContextMenu/DocContextMenu/index.tsx:471-489 | no icons for a personal team; otherwise one icon per shown contributor, same id, showing the permission user when there is one and the contributor itself otherwise |
| DocInfo.RaiseFlag | src/cloud/components/organisms/Topbar/Controls/ControlsContextMenu/DocContextMenu/index.tsx:174 | sending raises only the update's own busy flag and changes nothing else |
| DocInfo.BeginUpdate | src/cloud/components/organisms/Topbar/Controls/ControlsContextMenu/DocContextMenu/index.tsx:166-174 | ignored iff it would set the status the given document (`currentDoc`) already has or a status update is in flight; otherwise the update's own flag is raised |
| DocInfo.FailureToast | src/cloud/components/organisms/Topbar/Controls/ControlsContextMenu/DocContextMenu/index.tsx:183-188 | every failure toast is titled "Error" |
| DocInfo.FinishUpdate | src/cloud/components/organisms/Topbar/Controls/ControlsContextMenu/DocContextMenu/index.tsx:175-189 | success stores the saved document in the map and as the page document; failure only adds the toast; the own flag is lowered either way |
| DocInfo.SendUpdate | src/cloud/components/organisms/Topbar/Controls/ControlsContextMenu/DocContextMenu/index.tsx:165-189 | an update does nothing exactly when it is ignored |
| DocInfo.FailedUpdateOnlyAddsToast | src/cloud/components/organisms/Topbar/Controls/ControlsContextMenu/DocContextMenu/index.tsx:175-189 | a failed update leaves the documents and flags as before; the toast is its only trace |
| DocInfo.SavedUpdateStoresDoc | src/cloud/components/organisms/Topbar/Controls/ControlsContextMenu/DocContextMenu/index.tsx:181-182 | the saved document becomes the page document and its map entry, every other entry is kept, and the given document is unchanged |
| DocInfo.GuardReadsGivenDoc | src/cloud/components/organisms/Topbar/Controls/ControlsContextMenu/DocContextMenu/index.tsx:165-182 | right after a saved status update the same status is sent again, since the guard reads the given document, not the page document the save wrote |
| DocInfo.OnlyTheStatusFlagGuards | src/cloud/components/organisms/Topbar/Controls/ControlsContextMenu/DocContextMenu/index.tsx:166-239 | due-date and assignee updates are refused iff a status update is in flight, even while their own flags are up; a status update is also refused when it changes nothing |
| DocInfo.FlagLoweredAfterAnswer | src/cloud/components/organisms/Topbar/Controls/ControlsContextMenu/DocContextMenu/index.tsx:175-258 | every update that is sent ends with its own busy flag lowered |

## Left out

- The yjs document and its relative positions are not modelled. `Realtime` takes their place as an arbitrary encoder and partial resolver. The `doc.on`/`doc.off` listener registration that re-runs the projection is also left out.
- `useRealtime` is not part of this model, nor is the connection and reconnect logic. The connection state is an input.
- `partitionOnStatus` is not part of this model. Its buckets are modelled as filters of the thread list by status.
- The only list predicate the modelled code builds is the highlight click's id test, so `ThreadFilter` is that id set.
- Network calls are reduced to their outcome. This covers `createThread`, `threadOutdated`, `getSearchResultsV2`, `updateDocStatus`, `updateDocDueDate` and `updateDocAssignees`.
  - `CalculatePositions` returns the threads it would report as outdated.
  - `DebouncedSearch` returns what it would submit.
  - `FinishUpdate` receives the saved document, or none on failure.
- Search.DebouncedSearch: does not model the 600 ms debounce or the `cancel()` issued while a previous search is still being fetched, because both are timer plumbing.
- Sidebar.CollectTimelineDocs: walks the events in the order it is given. `TimelineRows` first sorts them oldest first, as `compareAsc` does, so the timeline is drawn from the 22 oldest matching events. Creation times are integer stamps in place of parsed date strings.
- Sidebar.SortNewestFirst: proves the order and the permutation but not stability. The insertion is stable, like the JavaScript sort, but no lemma states it. The same holds for Sidebar.SortOldestFirst, so which of several events with the same creation time come first is not stated. Dates are integer stamps in place of `compareDateString` on date strings.
- Sidebar.ItemOf: the label is the raw title. `getDocTitle` and its "Untitled" fallback, the link hrefs and the user colours and icons are left out.
- `getOriginalDocId` is an input function. So are eligibility for the discount, the subscription and the notification counts.
- Sidebar.ClickRow: the import, discount, members and settings rows open modals or the settings tab. Those are not part of the shell state modelled here.
- Toolbar icons and tooltips are not modelled, and neither is the browser `Notification` permission request.
- Keyboard navigation of the menus, bookmarks, revision history and the Electron integration are not modelled.
- The due-date rewrite to `yyyy-MM-dd` at midnight UTC is not modelled: a due date is an opaque day stamp.
- The menu's `currentDoc` prop and the page store's `pageDoc` are kept apart: the guards read the first, a saved update writes the second. Whether and when the parent passes the new page document back as `currentDoc` is outside the menu and not part of this model, so no lemma follows an update by a re-render.
- DocInfo.FailedUpdateOnlyAddsToast: requires that the due-date and assignee flags were down. The code lowers them after any answer, so an overlapping update of the same kind can see its flag lowered early. `FinishUpdate` models that lowering exactly.
- Rendering, styling, and the layout component `ContentLayout.tsx` are not modelled.
