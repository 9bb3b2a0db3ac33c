/**
  The comment panel of a document (CommentManager.tsx): threads, comments, the
  mode-tagged panel state, the status counts and filters of the thread list,
  and which controls each mode offers.
 */
module Comments {
  import opened Common
  import opened Users

  /**
    A yjs relative position: the item it is pinned to and its association.
    Only the resolver of the live document interprets it.
   */
  datatype RelPos = RelPos(client: nat, clock: nat, assoc: int)

  /** Both ends of the text span a thread was opened on. */
  datatype Selection = Selection(anchor: RelPos, head: RelPos)

  datatype StatusKind = Open | Closed | Outdated

  /** `thread.status`: its kind and, when known, who set it. */
  datatype ThreadStatus = ThreadStatus(kind: StatusKind, setBy: Option<User>)

  datatype Thread = Thread(id: Id, context: string, selection: Option<Selection>, status: ThreadStatus)

  datatype Comment = Comment(id: Id, threadId: Id, user: User, message: string)

  /**
    The optional list predicate of `list` mode. The only predicate built by the
    modelled code accepts the threads whose id is in a given set.
   */
  datatype ThreadFilter = OnlyIds(ids: set<Id>)

  predicate Accepts(f: ThreadFilter, t: Thread)
  {
    t.id in f.ids
  }

  /** What `new_thread` mode captured before the first comment is typed. */
  datatype NewThreadData = NewThreadData(context: Option<string>, selection: Option<Selection>)

  /**
    The panel state. Each mode carries exactly the fields it has in the
    TypeScript union: no thread list while the list loads, a current thread
    only while one is loading or shown, comments only when one is shown, and
    the captured data only for a new thread.
   */
  datatype State =
    | ListLoadingMode
    | ListMode(threads: seq<Thread>, filter: Option<ThreadFilter>)
    | ThreadLoadingMode(thread: Thread, threads: seq<Thread>)
    | ThreadMode(thread: Thread, comments: seq<Comment>, threads: seq<Thread>)
    | NewThreadMode(data: NewThreadData, threads: seq<Thread>)

  /** A request to `setMode`. */
  datatype ModeTransition =
    | GoThread(thread: Thread)
    | GoList(listFilter: Option<ThreadFilter>)
    | GoNewThread(context: Option<string>, newSelection: Option<Selection>)

  /** The thread list a state holds, absent exactly while the list loads. */
  function ThreadsOf(s: State): (r: Option<seq<Thread>>)
    ensures r.None? <==> s.ListLoadingMode?
    ensures r.Some? ==> r.value == s.threads
  {
    match s
    case ListLoadingMode => None
    case ListMode(ts, _) => Some(ts)
    case ThreadLoadingMode(_, ts) => Some(ts)
    case ThreadMode(_, _, ts) => Some(ts)
    case NewThreadMode(_, ts) => Some(ts)
  }

  function HasKind(k: StatusKind): Thread -> bool
  {
    (t: Thread) => t.status.kind == k
  }

  /**
    One bucket of `partitionOnStatus`: the threads of status `k`, in list
    order. The partition helper itself is not part of this model; this is the
    bucket its name and use describe.
   */
  function Bucket(threads: seq<Thread>, k: StatusKind): (r: seq<Thread>)
    ensures forall t :: t in r <==> t in threads && t.status.kind == k
  {
    Filter(HasKind(k), threads)
  }

  /** Every thread lies in exactly one bucket, so the bucket sizes add up to the list. */
  lemma {:induction false} PartitionTotal(threads: seq<Thread>)
    ensures |Bucket(threads, Open)| + |Bucket(threads, Closed)| + |Bucket(threads, Outdated)| == |threads|
  {
    if |threads| > 0 {
      PartitionTotal(threads[1..]);
    }
  }

  datatype StatusCounts = StatusCounts(all: nat, open: nat, closed: nat, outdated: nat)

  /** `counts`: the total and the size of each status bucket. */
  function Counts(s: State): (r: StatusCounts)
    ensures r.all == r.open + r.closed + r.outdated
    ensures s.ListLoadingMode? ==> r == StatusCounts(0, 0, 0, 0)
    ensures !s.ListLoadingMode? ==> r.all == |s.threads|
    ensures !s.ListLoadingMode? ==>
      r.open == |Bucket(s.threads, Open)| && r.closed == |Bucket(s.threads, Closed)|
      && r.outdated == |Bucket(s.threads, Outdated)|
  {
    var ts := if s.ListLoadingMode? then [] else s.threads;
    PartitionTotal(ts);
    StatusCounts(
      if s.ListLoadingMode? then 0 else |s.threads|,
      |Bucket(ts, Open)|, |Bucket(ts, Closed)|, |Bucket(ts, Outdated)|)
  }

  /** The status filter control of the list. */
  datatype StatusFilter = AllStatuses | OnlyStatus(kind: StatusKind)

  /** The list opens on the open threads. */
  const InitialStatusFilter: StatusFilter := OnlyStatus(Open)

  predicate ShownByStatus(sf: StatusFilter, t: Thread)
  {
    sf.AllStatuses? || t.status.kind == sf.kind
  }

  predicate ShownByFilter(f: Option<ThreadFilter>, t: Thread)
  {
    f.None? || Accepts(f.value, t)
  }

  function PassesFilter(f: ThreadFilter): Thread -> bool
  {
    (t: Thread) => Accepts(f, t)
  }

  /**
    The threads listed in `list` mode: the whole list or one status bucket,
    then narrowed by the optional list predicate.
   */
  function VisibleThreads(threads: seq<Thread>, f: Option<ThreadFilter>, sf: StatusFilter): (r: seq<Thread>)
    ensures forall t :: t in r <==> t in threads && ShownByStatus(sf, t) && ShownByFilter(f, t)
    ensures |r| <= |threads|
  {
    var byStatus := if sf.AllStatuses? then threads else Bucket(threads, sf.kind);
    if f.Some? then Filter(PassesFilter(f.value), byStatus) else byStatus
  }

  function Listed(f: Option<ThreadFilter>, sf: StatusFilter): Thread -> bool
  {
    (t: Thread) => ShownByStatus(sf, t) && ShownByFilter(f, t)
  }

  /**
    The two-stage selection is one order-preserving filter of the thread list,
    so the listed threads are a sub-sequence of it.
   */
  lemma VisibleThreadsIsOneFilter(threads: seq<Thread>, f: Option<ThreadFilter>, sf: StatusFilter)
    ensures VisibleThreads(threads, f, sf) == Filter(Listed(f, sf), threads)
  {
    var byStatus := if sf.AllStatuses? then threads else Bucket(threads, sf.kind);
    var statusTest: Thread -> bool := if sf.AllStatuses? then (t: Thread) => true else HasKind(sf.kind);
    if sf.AllStatuses? {
      FilterKeepsAll(statusTest, threads);
    }
    assert byStatus == Filter(statusTest, threads);
    if f.Some? {
      FilterFilter(statusTest, PassesFilter(f.value), Listed(f, sf), threads);
    } else {
      FilterFilter(statusTest, (t: Thread) => true, Listed(f, sf), threads);
      FilterKeepsAll((t: Thread) => true, byStatus);
    }
  }

  /** Opened with the initial status filter and no predicate, the list shows the open threads. */
  lemma InitialListShowsOpenThreads(threads: seq<Thread>)
    ensures VisibleThreads(threads, None, InitialStatusFilter) == Bucket(threads, Open)
  {
  }

  /** What `thread` mode offers below the comments of the shown thread. */
  datatype ThreadControls = ThreadControls(replyInput: bool, reopenButton: bool)

  function ControlsFor(t: Thread): (r: ThreadControls)
    ensures r.replyInput <==> t.status.kind == Open
    ensures r.reopenButton <==> t.status.kind == Closed
  {
    ThreadControls(t.status.kind == Open, t.status.kind == Closed)
  }

  /** A thread never offers both a reply and a reopen, and an outdated one offers neither. */
  lemma ControlsExclusive(t: Thread)
    ensures !(ControlsFor(t).replyInput && ControlsFor(t).reopenButton)
    ensures t.status.kind == Outdated ==> ControlsFor(t) == ThreadControls(false, false)
  {
  }

  /** The header of the panel. */
  datatype Header = Header(backButton: bool, statusFilterControl: bool, threadActionButton: bool)

  function HeaderFor(s: State): (r: Header)
    ensures r.backButton <==> !s.ListMode? || s.filter.Some?
    ensures r.statusFilterControl <==> s.ListMode?
    ensures r.threadActionButton <==> s.ThreadMode?
  {
    Header(!s.ListMode? || s.filter.Some?, s.ListMode?, s.ThreadMode?)
  }

  /** The back button leads to the unfiltered list; in the unfiltered list it is not offered. */
  const BackTransition: ModeTransition := GoList(None)

  lemma BackOnlyWhenItChangesSomething(threads: seq<Thread>)
    ensures !HeaderFor(ListMode(threads, BackTransition.listFilter)).backButton
    ensures forall ids :: HeaderFor(ListMode(threads, Some(OnlyIds(ids)))).backButton
  {
  }

  /** The body of a `createThread` request. */
  datatype CreateThreadRequest = CreateThreadRequest(context: Option<string>, selection: Option<Selection>, comment: string)

  /** Submitting the first comment of a new thread sends the captured data unchanged. */
  function SubmitNewThread(data: NewThreadData, comment: string): (r: CreateThreadRequest)
    ensures r.context == data.context && r.selection == data.selection
    ensures r.comment == comment
  {
    CreateThreadRequest(data.context, data.selection, comment)
  }

  /** The transitions the list view requests: select a thread, or start a new one. */
  datatype ListIntent = SelectThread(selected: Thread) | StartNewThread

  function ListIntentTransition(i: ListIntent): (r: ModeTransition)
    ensures i.SelectThread? ==> r == GoThread(i.selected)
    ensures i.StartNewThread? ==> r == GoNewThread(None, None)
  {
    match i
    case SelectThread(t) => GoThread(t)
    case StartNewThread => GoNewThread(None, None)
  }
}
